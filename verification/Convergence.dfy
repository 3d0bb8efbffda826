/** Convergence of the home and of the caches it refreshes, when channels are FIFO
    and nobody registers an entity while an older update about it is in flight. Who
    reports an emigration or a removal does not matter. */
module Convergence {
  import opened Records
  import opened Recency
  import opened LookupTable
  import opened RankModel
  import opened Network
  import opened Protocol
  import opened Migration
  import opened RankInvariant
  import opened Subscriptions

  // ---------- agreement ----------

  /** What rank `r` believes or is about to be told: the newest location on its way
      from the home, or else its cached record. */
  function Belief(s: System, r: NodeType, id: EntityID): Option<NodeType>
    requires 0 <= r < |s.ranks|
  {
    if Newest(s.net, r, id).Some? then Newest(s.net, r, id)
    else if Has(s.ranks[r].recs.cache, id) then Some(Find(s.ranks[r].recs.cache, id).value.curNode)
    else None
  }

  /** The home says `node`, and so does every belief of the ranks it keeps informed. */
  ghost predicate Agreed(c: Config, s: System, id: EntityID, node: NodeType)
    requires c.Valid() && |s.ranks| == c.n
  {
    var h := s.ranks[c.home(id)];
    && id in h.recs.dir && h.recs.dir[id].curNode == node
    && forall r :: c.IsRank(r) && r in Askers(h, id) ==> Belief(s, r, id) in {None, Some(node)}
  }

  ghost predicate Converging(c: Config, s: System, acts: seq<Action>, id: EntityID)
    requires c.Valid() && |s.ranks| == c.n
  {
    WhereIs(acts, id).At? ==>
      var node := WhereIs(acts, id).node;
      && Count(s.net, UpdatesOf(id)) <= 1
      && (forall p :: p in s.net && Matches(UpdatesOf(id), p) ==> p.msg.node == node)
      && (!UpdateInFlight(s.net, id) ==> Agreed(c, s, id, node))
  }

  // ---------- traffic of one step ----------

  /** Updates about `id` are sent only by registering it away from home. */
  lemma UpdateTraffic(c: Config, s: System, a: Action, id: EntityID)
    requires c.Valid() && SystemInv(c, s) && Enabled(c, s, a)
    ensures
      var sends := Acts(c, s.ranks[a.Actor()], a).sends;
      if a.Register? && a.id == id && a.rank != c.home(id)
      then sends == [Packet(a.rank, c.home(id), UpdateHome(id, a.rank))] && Count(sends, UpdatesOf(id)) == 1
      else Count(sends, UpdatesOf(id)) == 0
  {
    var k := s.ranks[a.Actor()];
    var sends := Acts(c, k, a).sends;
    if a.Register? && a.rank != c.home(a.id) {
      CountOne(sends[0], UpdatesOf(id));
    } else {
      if a.Register? { AnnounceSends(k.(local := k.local + {a.id}), a.id, k.me, a.order); }
      CountNone(sends, UpdatesOf(id));
    }
  }

  lemma UpdateCount(c: Config, s: System, a: Action, id: EntityID)
    requires c.Valid() && SystemInv(c, s) && Enabled(c, s, a)
    ensures
      var s' := Apply(c, s, a);
      Count(s'.net, UpdatesOf(id)) ==
        Count(s.net, UpdatesOf(id)) - (if a.Deliver? && Matches(UpdatesOf(id), a.packet) then 1 else 0)
        + Count(Acts(c, s.ranks[a.Actor()], a).sends, UpdatesOf(id))
  {
    var sends := Acts(c, s.ranks[a.Actor()], a).sends;
    if a.Deliver? { CountExchange(s.net, a.index, sends, UpdatesOf(id)); }
    else { CountAppend(s.net, sends, UpdatesOf(id)); }
  }

  // ---------- an announcement establishes agreement ----------

  lemma AnnounceAgrees(c: Config, s: System, a: Action, id: EntityID)
    requires c.Valid() && SystemInv(c, s) && Enabled(c, s, a) && Announces(c, a, id)
    ensures Agreed(c, Apply(c, s, a), id, AnnouncedNode(c, a, id))
  {
    if a.Deliver? { assert Addressed(c, a.packet); }
    var s', h, node := Apply(c, s, a), c.home(id), AnnouncedNode(c, a, id);
    var k := s.ranks[h];
    var sends := Acts(c, k, a).sends;
    var kept := if a.Deliver? then RemoveAt(s.net, a.index) else s.net;
    ActsAnnounces(c, k, a, id);
    AnnounceSends(k, id, node, a.order);
    forall r | c.IsRank(r) && r in Askers(s'.ranks[h], id) ensures Belief(s', r, id) == Some(node) {
      AnnounceReaches(k, id, node, a.order, r);
      NewestTold(kept, sends, r, id, node);
    }
  }

  // ---------- other steps keep it ----------

  /** Removing a delivered packet that is not for `r` does not change `r`'s news. */
  lemma NewsElsewhere(s: System, a: Action, sends: seq<Packet>, r: NodeType, id: EntityID)
    requires a.Deliver? ==> a.index < |s.net| && s.net[a.index].dst != r
    ensures
      var kept := if a.Deliver? then RemoveAt(s.net, a.index) else s.net;
      Newest(kept, r, id) == Newest(s.net, r, id)
  {
    if a.Deliver? { NewestSkip(s.net, a.index, r, id); }
  }

  /** A rank other than the home sends nobody a location of `id`. */
  lemma OnlyHomeTells(c: Config, s: System, a: Action, r: NodeType, id: EntityID)
    requires c.Valid() && SystemInv(c, s) && Enabled(c, s, a) && a.Actor() != c.home(id)
    ensures Newest(Acts(c, s.ranks[a.Actor()], a).sends, r, id).None?
  {
    ActsKeeps(c, s, a);
    SendsAreOwn(c, s.ranks[a.Actor()], a);
    NewestNone(Acts(c, s.ranks[a.Actor()], a).sends, r, id);
  }

  /** Unless a rank emigrates the entity or is told its location, its cached record
      stays as it is or is evicted. */
  lemma RecordStaysOrGoes(c: Config, k: RankState, a: Action, id: EntityID)
    requires RankInv(c, k) && k.me == a.Actor() && c.home(id) != k.me
    requires a.Deliver? ==> Addressed(c, a.packet) && !BearsLocation(a.packet, id)
    requires !(a.Emigrate? && a.id == id)
    ensures
      var t := Acts(c, k, a).state.recs;
      Has(t.cache, id) ==> Find(t.cache, id) == Find(k.recs.cache, id)
  {
    match a
    case Emigrate(_, x, n) => UpdateThenRead(k.recs, x, MakeRec(x, n, k.me));
    case Unregister(_, x) => RemovedFromTable(k.recs, x);
    case GetLocation(_, x, _) => if x !in k.local && k.recs.Exists(x) { GottenFacts(k.recs, x); }
    case EntityExists(_, x, _) => if x !in k.local && k.recs.Exists(x) { GottenFacts(k.recs, x); }
    case Deliver(_, p, _) =>
      match p.msg {
        case LocationRequest(x, _) => if k.recs.Exists(x) { GottenFacts(k.recs, x); }
        case ExistsRequest(x, _) => if k.recs.Exists(x) { GottenFacts(k.recs, x); }
        case ResolveResponse(x, n) => UpdateThenRead(k.recs, x, MakeRec(x, n, k.me));
        case ExistsResponse(x, found, n) => if found { UpdateThenRead(k.recs, x, MakeRec(x, n, k.me)); }
        case UpdateHome(_, _) =>
      }
    case _ =>
  }

  /** Being told a location files exactly that location. */
  lemma ToldIsFiled(c: Config, k: RankState, p: Packet, order: seq<NodeType>, id: EntityID)
    requires RankInv(c, k) && k.me == p.dst && c.home(id) != k.me && BearsLocation(p, id)
    ensures
      var t := Handle(k, p.msg, order).state.recs;
      Find(t.cache, id).Some? && Find(t.cache, id).value.curNode == p.msg.node
  {
    UpdateThenRead(k.recs, id, MakeRec(id, p.msg.node, k.me));
  }

  /** With FIFO channels, a delivery to `r` never makes it believe something older. */
  lemma BeliefOnDelivery(c: Config, s: System, a: Action, r: NodeType, id: EntityID)
    requires c.Valid() && SystemInv(c, s) && Enabled(c, s, a) && c.Away(id, r)
    requires a.Deliver? && a.Actor() == r && FirstOnChannel(s.net, a.index)
    ensures Belief(Apply(c, s, a), r, id) in {None, Belief(s, r, id)}
  {
    var sends := Acts(c, s.ranks[r], a).sends;
    var kept := RemoveAt(s.net, a.index);
    assert Addressed(c, a.packet);
    OnlyHomeTells(c, s, a, r, id);
    NewestAppend(kept, sends, r, id);
    if BearsLocation(a.packet, id) {
      forall j | 0 <= j < a.index && s.net[j].dst == r ensures !BearsLocation(s.net[j], id) {
        assert s.net[j] in s.net && Addressed(c, s.net[j]);
      }
      NewestOldestTaken(s.net, a.index, r, id);
      NewestNone(s.net, r, id);
      ToldIsFiled(c, s.ranks[r], a.packet, a.order, id);
    } else {
      NewestSkip(s.net, a.index, r, id);
      RecordStaysOrGoes(c, s.ranks[r], a, id);
    }
  }

  lemma BeliefOnOwnCall(c: Config, s: System, a: Action, r: NodeType, id: EntityID)
    requires c.Valid() && SystemInv(c, s) && Enabled(c, s, a) && c.Away(id, r)
    requires !a.Deliver? && a.Actor() == r && !(a.Emigrate? && a.id == id)
    ensures Belief(Apply(c, s, a), r, id) in {None, Belief(s, r, id)}
  {
    OnlyHomeTells(c, s, a, r, id);
    NewestAppend(s.net, Acts(c, s.ranks[r], a).sends, r, id);
    RecordStaysOrGoes(c, s.ranks[r], a, id);
  }

  lemma BeliefOnOthers(c: Config, s: System, a: Action, r: NodeType, id: EntityID)
    requires c.Valid() && SystemInv(c, s) && Enabled(c, s, a) && c.Away(id, r)
    requires a.Actor() != r && a.Actor() != c.home(id)
    ensures Belief(Apply(c, s, a), r, id) == Belief(s, r, id)
  {
    var sends := Acts(c, s.ranks[a.Actor()], a).sends;
    OnlyHomeTells(c, s, a, r, id);
    NewsElsewhere(s, a, sends, r, id);
    NewestAppend(if a.Deliver? then RemoveAt(s.net, a.index) else s.net, sends, r, id);
  }

  /** A step of the home about anything else only repeats what its directory says. */
  lemma BeliefOnHome(c: Config, s: System, a: Action, r: NodeType, id: EntityID)
    requires c.Valid() && SystemInv(c, s) && Enabled(c, s, a) && c.Away(id, r)
    requires a.Actor() == c.home(id) && !Announces(c, a, id) && !Unsettles(c, a, id)
    requires id in s.ranks[c.home(id)].recs.dir
    ensures
      var node := s.ranks[c.home(id)].recs.dir[id].curNode;
      var s' := Apply(c, s, a);
      if r in Askers(s.ranks[c.home(id)], id) then Belief(s', r, id) in {Belief(s, r, id), Some(node)}
      else r in Askers(s'.ranks[c.home(id)], id) ==> Belief(s', r, id) == Some(node)
  {
    var k := s.ranks[c.home(id)];
    var node := k.recs.dir[id].curNode;
    var sends := Acts(c, k, a).sends;
    if a.Deliver? { assert Addressed(c, a.packet); }
    QuietTelling(c, k, a, id, r);
    AskersGrow(c, s, a, id, r);
    NewsElsewhere(s, a, sends, r, id);
    NewestAppend(if a.Deliver? then RemoveAt(s.net, a.index) else s.net, sends, r, id);
    OnlyTellsNewest(sends, r, id, node);
    NewestNone(sends, r, id);
  }

  /** Steps that neither announce nor move `id` keep the agreement. */
  lemma AgreementStays(c: Config, s: System, a: Action, id: EntityID, node: NodeType)
    requires c.Valid() && SystemInv(c, s) && Enabled(c, s, a) && Agreed(c, s, id, node)
    requires a.Deliver? ==> FirstOnChannel(s.net, a.index)
    requires !Announces(c, a, id) && !((a.Emigrate? || a.Unregister?) && a.id == id)
    ensures Agreed(c, Apply(c, s, a), id, node)
  {
    var s', h := Apply(c, s, a), c.home(id);
    if a.Deliver? { assert Addressed(c, a.packet); }
    if a.Actor() == h { QuietTelling(c, s.ranks[h], a, id, h); }
    forall r | c.IsRank(r) && r in Askers(s'.ranks[h], id) ensures Belief(s', r, id) in {None, Some(node)} {
      ActsKeeps(c, s, a);
      assert c.Away(id, r);
      if a.Actor() == h { BeliefOnHome(c, s, a, r, id); }
      else if a.Actor() != r { BeliefOnOthers(c, s, a, r, id); }
      else if a.Deliver? { BeliefOnDelivery(c, s, a, r, id); }
      else { BeliefOnOwnCall(c, s, a, r, id); }
    }
  }

  // ---------- FIFO and patient runs ----------

  /** A patient registration starts or restores convergence. */
  lemma RegisterConverges(c: Config, s: System, acts: seq<Action>, a: Action)
    requires c.Valid() && SystemInv(c, s) && Enabled(c, s, a) && a.Register? && !UpdateInFlight(s.net, a.id)
    ensures |Apply(c, s, a).ranks| == c.n && Converging(c, Apply(c, s, a), acts + [a], a.id)
  {
    var acts', s', id := acts + [a], Apply(c, s, a), a.id;
    assert acts'[..|acts'| - 1] == acts;
    UpdateTraffic(c, s, a, id);
    UpdateCount(c, s, a, id);
    CountNone(s.net, UpdatesOf(id));
    NetStep(c, s, a);
    if a.rank == c.home(id) {
      AnnounceAgrees(c, s, a, id);
      CountNone(s'.net, UpdatesOf(id));
    }
  }

  lemma ConvergingStep(c: Config, s: System, acts: seq<Action>, a: Action, id: EntityID)
    requires c.Valid() && SystemInv(c, s) && Enabled(c, s, a) && Fifo(s, a) && Patient(s, a, id)
    requires Converging(c, s, acts, id)
    ensures |Apply(c, s, a).ranks| == c.n && Converging(c, Apply(c, s, a), acts + [a], id)
  {
    var acts', s' := acts + [a], Apply(c, s, a);
    assert acts'[..|acts'| - 1] == acts;
    if a.Register? && a.id == id {
      RegisterConverges(c, s, acts, a);
    } else if WhereIs(acts', id).At? {
      var node := WhereIs(acts, id).node;
      UpdateTraffic(c, s, a, id);
      UpdateCount(c, s, a, id);
      CountNone(Acts(c, s.ranks[a.Actor()], a).sends, UpdatesOf(id));
      NetStep(c, s, a);
      if a.Deliver? && Matches(UpdatesOf(id), a.packet) {
        AnnounceAgrees(c, s, a, id);
      } else if !UpdateInFlight(s.net, id) {
        AgreementStays(c, s, a, id, node);
      }
    }
  }

  lemma {:induction false} ConvergingAlways(c: Config, acts: seq<Action>, id: EntityID)
    requires c.Valid() && Run(c, acts).Some? && FifoRun(c, acts) && PatientRun(c, acts, id)
    ensures |Run(c, acts).value.ranks| == c.n && Converging(c, Run(c, acts).value, acts, id)
  {
    SystemInvAlways(c, acts);
    if acts != [] {
      var before, a := acts[..|acts| - 1], acts[|acts| - 1];
      ConvergingAlways(c, before, id);
      SystemInvAlways(c, before);
      ConvergingStep(c, Run(c, before).value, before, a, id);
      LastAction(acts);
    }
  }

  /** Convergence: whenever the entity lives on `node` and no update about it is in
      flight, the home says `node`, and the newest news on its way to any rank the
      home keeps informed, or else that rank's cached record, says `node` too. */
  lemma Converges(c: Config, acts: seq<Action>, s: System, id: EntityID, node: NodeType)
    requires c.Valid() && Run(c, acts) == Some(s) && FifoRun(c, acts) && PatientRun(c, acts, id)
    requires WhereIs(acts, id) == At(node)
    requires forall p :: p in s.net ==> !Matches(UpdatesOf(id), p)
    ensures |s.ranks| == c.n && Agreed(c, s, id, node)
  {
    CountNone(s.net, UpdatesOf(id));
    ConvergingAlways(c, acts, id);
  }

  /** Once nothing is in flight, no cache of an informed rank is stale. */
  lemma QuiescentCachesAgree(c: Config, acts: seq<Action>, s: System, id: EntityID, node: NodeType, r: NodeType)
    requires c.Valid() && Run(c, acts) == Some(s) && FifoRun(c, acts) && PatientRun(c, acts, id) && c.IsRank(r)
    requires WhereIs(acts, id) == At(node) && s.net == []
    ensures |s.ranks| == c.n
    ensures r == c.home(id) || r in Askers(s.ranks[c.home(id)], id) ==>
              s.ranks[r].recs.Exists(id) ==> KnownNode(s.ranks[r], id) == node
  {
    Converges(c, acts, s, id, node);
    SystemInvAlways(c, acts);
  }
}
