/** What the home knows, as a function of the run alone, and what follows for the
    layers of its lookup and for the verdicts it gives on existence. */
module HomeDirectory {
  import opened Records
  import opened Recency
  import opened LookupTable
  import opened RankModel
  import opened Protocol
  import opened RankInvariant
  import opened Subscriptions

  // ---------- the directory follows the run ----------

  /** The node the home should have on file for `id`: that of the latest announcement,
      repointed by later emigrations from the home, none after a removal there. */
  function HomeEntry(c: Config, acts: seq<Action>, id: EntityID): Option<NodeType> {
    if acts == [] then None
    else
      var earlier, a := HomeEntry(c, acts[..|acts| - 1], id), acts[|acts| - 1];
      if Announces(c, a, id) then Some(AnnouncedNode(c, a, id))
      else if a.Emigrate? && Unsettles(c, a, id) then (if earlier.Some? then Some(a.newNode) else None)
      else if a.Unregister? && Unsettles(c, a, id) then None
      else earlier
  }

  function OnFile(k: RankState, id: EntityID): Option<NodeType> {
    if id in k.recs.dir then Some(k.recs.dir[id].curNode) else None
  }

  lemma FileFollowsStep(c: Config, s: System, a: Action, id: EntityID)
    requires c.Valid() && SystemInv(c, s) && Enabled(c, s, a)
    ensures
      var was, now := OnFile(s.ranks[c.home(id)], id), OnFile(Apply(c, s, a).ranks[c.home(id)], id);
      now == if Announces(c, a, id) then Some(AnnouncedNode(c, a, id))
             else if a.Emigrate? && Unsettles(c, a, id) then (if was.Some? then Some(a.newNode) else None)
             else if a.Unregister? && Unsettles(c, a, id) then None
             else was
  {
    if a.Deliver? { assert Addressed(c, a.packet); }
    var k := s.ranks[a.Actor()];
    if a.Actor() == c.home(id) && Announces(c, a, id) {
      ActsAnnounces(c, k, a, id);
    }
  }

  /** In every run, under any delivery order and any use of the API, the home has on
      file exactly what the announcements and its own calls put there. */
  lemma {:induction false} DirectoryFollowsRun(c: Config, acts: seq<Action>, id: EntityID)
    requires c.Valid() && Run(c, acts).Some?
    ensures |Run(c, acts).value.ranks| == c.n
    ensures OnFile(Run(c, acts).value.ranks[c.home(id)], id) == HomeEntry(c, acts, id)
  {
    SystemInvAlways(c, acts);
    if acts != [] {
      var before, a := acts[..|acts| - 1], acts[|acts| - 1];
      DirectoryFollowsRun(c, before, id);
      SystemInvAlways(c, before);
      FileFollowsStep(c, Run(c, before).value, a, id);
    }
  }

  // ---------- the two layers of the lookup ----------

  /** The home of `id` does not cache it. */
  predicate OwnOnlyOnFile(c: Config, k: RankState, id: EntityID) {
    c.home(id) == k.me ==> !Has(k.recs.cache, id)
  }

  /** The call the embedder must not make: the home reports the emigration of `id`
      without having it on file. */
  predicate Misreports(c: Config, k: RankState, a: Action, id: EntityID) {
    a.Emigrate? && a.id == id && a.rank == c.home(id) && id !in k.recs.dir
  }

  lemma OwnOnlyUpdate(c: Config, k: RankState, x: EntityID, node: NodeType, id: EntityID)
    requires k.recs.Valid() && OwnOnlyOnFile(c, k, id)
    requires x == id && c.home(id) == k.me ==> id in k.recs.dir
    ensures OwnOnlyOnFile(c, k.(recs := k.recs.Updated(x, MakeRec(x, node, k.me))), id)
  {
    UpdateThenRead(k.recs, x, MakeRec(x, node, k.me));
  }

  lemma OwnOnlyRead(c: Config, k: RankState, x: EntityID, id: EntityID)
    requires k.recs.Valid() && OwnOnlyOnFile(c, k, id) && k.recs.Exists(x)
    ensures OwnOnlyOnFile(c, k.(recs := k.recs.Gotten(x)), id)
  {
    GottenFacts(k.recs, x);
  }

  /** Exactly that call puts an entity into the cache of its home. */
  lemma LayersSeparateUnlessMisreported(c: Config, s: System, a: Action, id: EntityID)
    requires c.Valid() && SystemInv(c, s) && Enabled(c, s, a)
    requires OwnOnlyOnFile(c, s.ranks[a.Actor()], id)
    ensures OwnOnlyOnFile(c, Acts(c, s.ranks[a.Actor()], a).state, id) <==> !Misreports(c, s.ranks[a.Actor()], a, id)
  {
    var k := s.ranks[a.Actor()];
    match a
    case Emigrate(_, x, n) =>
      if Misreports(c, k, a, id) {
        UpdateThenRead(k.recs, x, MakeRec(x, n, k.me));
        assert Has(RankModel.Emigrate(k, x, n).state.recs.cache, x);
      } else {
        OwnOnlyUpdate(c, k, x, n, id);
      }
    case Unregister(_, x) => RemovedFromTable(k.recs, x);
    case GetLocation(_, x, _) => if x !in k.local && k.recs.Exists(x) { OwnOnlyRead(c, k, x, id); }
    case EntityExists(_, x, _) => if x !in k.local && k.recs.Exists(x) { OwnOnlyRead(c, k, x, id); }
    case Deliver(_, p, _) =>
      assert Addressed(c, p);
      match p.msg {
        case LocationRequest(x, _) => if k.recs.Exists(x) { OwnOnlyRead(c, k, x, id); }
        case ExistsRequest(x, _) => if k.recs.Exists(x) { OwnOnlyRead(c, k, x, id); }
        case ResolveResponse(x, n) => OwnOnlyUpdate(c, k, x, n, id);
        case ExistsResponse(x, found, n) => if found { OwnOnlyUpdate(c, k, x, n, id); }
        case UpdateHome(_, _) =>
      }
    case _ =>
  }

  /** No call of the run misreported `id`. */
  ghost predicate Honest(c: Config, acts: seq<Action>, id: EntityID) {
    acts == [] ||
    (var before, a := acts[..|acts| - 1], acts[|acts| - 1];
     && Honest(c, before, id)
     && Run(c, before).Some? && Enabled(c, Run(c, before).value, a)
     && !Misreports(c, Run(c, before).value.ranks[a.Actor()], a, id))
  }

  /** An entity that is never misreported is never both on file and cached on one rank. */
  lemma {:induction false} LayersAlwaysSeparate(c: Config, acts: seq<Action>, id: EntityID)
    requires c.Valid() && Run(c, acts).Some? && Honest(c, acts, id)
    ensures |Run(c, acts).value.ranks| == c.n
    ensures forall r :: c.IsRank(r) ==> OwnOnlyOnFile(c, Run(c, acts).value.ranks[r], id)
    ensures forall r :: c.IsRank(r) && id in Run(c, acts).value.ranks[r].recs.dir ==>
              !Has(Run(c, acts).value.ranks[r].recs.cache, id)
  {
    SystemInvAlways(c, acts);
    if acts != [] {
      var before, a := acts[..|acts| - 1], acts[|acts| - 1];
      LayersAlwaysSeparate(c, before, id);
      SystemInvAlways(c, before);
      LayersSeparateUnlessMisreported(c, Run(c, before).value, a, id);
    }
    var s := Run(c, acts).value;
    forall r | c.IsRank(r) && id in s.ranks[r].recs.dir ensures !Has(s.ranks[r].recs.cache, id) {
      assert DirectoryInv(c, s.ranks[r]);
    }
  }

  /** Every reported emigration of `id` comes from a rank where it is registered. */
  ghost predicate ReportedByHosts(c: Config, acts: seq<Action>, id: EntityID) {
    acts == [] ||
    (var before, a := acts[..|acts| - 1], acts[|acts| - 1];
     && ReportedByHosts(c, before, id)
     && Run(c, before).Some? && Enabled(c, Run(c, before).value, a)
     && (a.Emigrate? && a.id == id ==> id in Run(c, before).value.ranks[a.rank].local))
  }

  /** The documented use of the API is honest: an entity registered at its home is on file. */
  lemma {:induction false} HostsAreHonest(c: Config, acts: seq<Action>, id: EntityID)
    requires c.Valid() && Run(c, acts).Some? && ReportedByHosts(c, acts, id)
    ensures Honest(c, acts, id)
  {
    if acts != [] {
      var before, a := acts[..|acts| - 1], acts[|acts| - 1];
      HostsAreHonest(c, before, id);
      SystemInvAlways(c, before);
      assert LocalInv(c, Run(c, before).value.ranks[a.Actor()]);
    }
  }

  // ---------- verdicts on existence ----------

  /** Unless `id` was misreported, the home calls it existing iff it has it on file, and
      then names the node on file; the `local` fallback never decides. */
  lemma HomeVerdict(c: Config, acts: seq<Action>, id: EntityID, requester: NodeType)
    requires c.Valid() && Run(c, acts).Some? && Honest(c, acts, id)
    ensures |Run(c, acts).value.ranks| == c.n
    ensures
      var k, entry := Run(c, acts).value.ranks[c.home(id)], HomeEntry(c, acts, id);
      OnExistsRequest(k, id, requester).sends ==
        [Packet(k.me, requester, ExistsResponse(id, entry.Some?, if entry.Some? then entry.value else NO_NODE))]
  {
    DirectoryFollowsRun(c, acts, id);
    LayersAlwaysSeparate(c, acts, id);
    SystemInvAlways(c, acts);
    var k := Run(c, acts).value.ranks[c.home(id)];
    assert OwnOnlyOnFile(c, k, id) && LocalInv(c, k);
  }

  // ---------- how far a refresh reaches ----------

  /** An announcement reaches exactly the ranks that the home has answered before and
      those whose requests it had to put off; nobody else is refreshed. */
  lemma RefreshReaches(c: Config, acts: seq<Action>, s: System, a: Action, id: EntityID, r: NodeType)
    requires c.Valid() && Run(c, acts) == Some(s) && Enabled(c, s, a) && Announces(c, a, id)
    ensures
      Packet(c.home(id), r, ResolveResponse(id, AnnouncedNode(c, a, id))) in Acts(c, s.ranks[a.Actor()], a).sends
      <==> Waiters.Answering(c, s.sent, r, id) || r in Buffered(s.ranks[a.Actor()].pendingHome, id)
  {
    SystemInvAlways(c, acts);
    AskersAreAnsweredAlways(c, acts);
    if a.Deliver? { assert Addressed(c, a.packet); }
    var k := s.ranks[a.Actor()];
    ActsAnnounces(c, k, a, id);
    AnnounceReaches(k, id, AnnouncedNode(c, a, id), a.order, r);
  }
}
