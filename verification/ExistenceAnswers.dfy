/** Caches of ranks that the home does not keep informed: they are filled by existence
    answers and by the rank's own emigrations only, so whether a record is right depends
    on what the home had on file when it last answered. */
module ExistenceAnswers {
  import opened Records
  import opened RankModel
  import opened Network
  import opened Protocol
  import opened RankInvariant
  import opened Waiters
  import opened Subscriptions
  import opened Provenance
  import opened HomeDirectory
  import opened CacheHistory

  /** What the home had on file when it last answered an existence query of rank `r`. */
  function Answered(c: Config, acts: seq<Action>, r: NodeType, id: EntityID): Option<NodeType> {
    if acts == [] then None
    else
      var before, a := acts[..|acts| - 1], acts[|acts| - 1];
      if a.Deliver? && a.packet.msg == ExistsRequest(id, r) then HomeEntry(c, before, id)
      else Answered(c, before, r, id)
  }

  /** What reached rank `r`, by the entries of the home at the times of its answers: the
      last positive answer delivered, or the last emigration `r` reported itself; none
      after its own removal. */
  function Learned(c: Config, acts: seq<Action>, r: NodeType, id: EntityID): Option<NodeType> {
    if acts == [] then None
    else
      var before := acts[..|acts| - 1];
      var earlier := Learned(c, before, r, id);
      match acts[|acts| - 1]
      case Deliver(_, p, _) =>
        if p.dst == r && AnswersQuery(p, id) && Answered(c, before, r, id).Some?
        then Answered(c, before, r, id) else earlier
      case Emigrate(x, y, n) => if x == r && y == id then Some(n) else earlier
      case Unregister(x, y) => if x == r && y == id then None else earlier
      case _ => earlier
  }

  predicate AnswersQuery(p: Packet, id: EntityID) {
    p.msg.ExistsResponse? && p.msg.id == id
  }

  // ---------- an answer in flight says what was on file ----------

  function AnswerMsg(id: EntityID, entry: Option<NodeType>): Msg {
    ExistsResponse(id, entry.Some?, if entry.Some? then entry.value else NO_NODE)
  }

  ghost predicate AnswersFaithful(net: seq<Packet>, r: NodeType, id: EntityID, entry: Option<NodeType>) {
    forall p :: p in net && p.dst == r && AnswersQuery(p, id) ==> p.msg == AnswerMsg(id, entry)
  }

  /** While a query of `r` is delivered, no answer to `r` is in flight. */
  lemma NoOtherAnswer(s: System, i: nat, r: NodeType, id: EntityID)
    requires i < |s.net| && Count(s.net, ExistenceOf(id, r)) <= 1 && Matches(ExistenceOf(id, r), s.net[i])
    ensures forall p :: p in RemoveAt(s.net, i) && p.dst == r ==> !AnswersQuery(p, id)
  {
    CountRemoveAt(s.net, i, ExistenceOf(id, r));
    CountNone(RemoveAt(s.net, i), ExistenceOf(id, r));
  }

  /** Only delivering a query of `r` makes a rank answer `r`. */
  lemma OnlyQueriesAnswered(c: Config, k: RankState, a: Action, r: NodeType, id: EntityID)
    requires 1 <= k.recs.cap && k.me == a.Actor() && !(a.Deliver? && a.packet.msg == ExistsRequest(id, r))
    ensures forall p :: p in Acts(c, k, a).sends && p.dst == r ==> !AnswersQuery(p, id)
  {
    match a
    case Register(_, x, order) =>
      if c.home(x) == k.me { AnnounceSends(k.(local := k.local + {x}), x, k.me, order); }
    case Deliver(_, p, order) =>
      if p.msg.UpdateHome? { AnnounceSends(k, p.msg.id, p.msg.node, order); }
    case _ =>
  }

  /** Delivering a query sends exactly what is on file. */
  lemma QueryAnswered(c: Config, acts: seq<Action>, s: System, a: Action, r: NodeType, id: EntityID)
    requires c.Valid() && Run(c, acts) == Some(s) && SystemInv(c, s) && Enabled(c, s, a) && c.Away(id, r)
    requires Honest(c, acts, id) && ExistenceExact(c, s)
    requires a.Deliver? && a.packet.msg == ExistsRequest(id, r)
    ensures AnswersFaithful(Apply(c, s, a).net, r, id, HomeEntry(c, acts, id))
  {
    assert Addressed(c, a.packet);
    HomeVerdict(c, acts, id, r);
    NoOtherAnswer(s, a.index, r, id);
  }

  lemma AnswersStep(c: Config, acts: seq<Action>, s: System, a: Action, r: NodeType, id: EntityID)
    requires c.Valid() && Run(c, acts) == Some(s) && SystemInv(c, s) && Enabled(c, s, a) && c.Away(id, r)
    requires Honest(c, acts, id) && ExistenceExact(c, s)
    requires AnswersFaithful(s.net, r, id, Answered(c, acts, r, id))
    ensures AnswersFaithful(Apply(c, s, a).net, r, id, Answered(c, acts + [a], r, id))
  {
    var acts' := acts + [a];
    assert acts'[..|acts'| - 1] == acts;
    if a.Deliver? && a.packet.msg == ExistsRequest(id, r) {
      QueryAnswered(c, acts, s, a, r, id);
    } else {
      OnlyQueriesAnswered(c, s.ranks[a.Actor()], a, r, id);
      NetStep(c, s, a);
    }
  }

  lemma {:induction false} AnswersAlways(c: Config, acts: seq<Action>, s: System, r: NodeType, id: EntityID)
    requires c.Valid() && Run(c, acts) == Some(s) && Honest(c, acts, id) && c.Away(id, r)
    ensures AnswersFaithful(s.net, r, id, Answered(c, acts, r, id))
  {
    if acts != [] {
      var before, a := acts[..|acts| - 1], acts[|acts| - 1];
      var was := Run(c, before).value;
      AnswersAlways(c, before, was, r, id);
      SystemInvAlways(c, before);
      ExistenceExactAlways(c, before);
      AnswersStep(c, before, was, a, r, id);
      LastAction(acts);
    }
  }

  // ---------- what an uninformed rank has heard ----------

  /** Whoever is being sent a resolveResponse is kept informed. */
  lemma ToldIsAsker(c: Config, acts: seq<Action>, s: System, r: NodeType, id: EntityID, p: Packet)
    requires c.Valid() && Run(c, acts) == Some(s) && |s.ranks| == c.n
    requires p in s.net && p.dst == r && p.msg.ResolveResponse? && p.msg.id == id
    ensures r in Askers(s.ranks[c.home(id)], id)
  {
    SystemInvAlways(c, acts);
    AskersAreAnsweredAlways(c, acts);
    TracedAlways(c, acts);
    assert Addressed(c, p);
    assert p == Packet(c.home(id), r, ResolveResponse(id, p.msg.node));
  }

  /** Whoever is kept informed stays so. */
  lemma AskersStay(c: Config, acts: seq<Action>, s: System, a: Action, r: NodeType, id: EntityID)
    requires c.Valid() && Run(c, acts) == Some(s) && Enabled(c, s, a) && Run(c, acts + [a]) == Some(Apply(c, s, a))
    requires r in Askers(s.ranks[c.home(id)], id)
    ensures r in Askers(Apply(c, s, a).ranks[c.home(id)], id)
  {
    AskersAreAnsweredAlways(c, acts);
    AskersAreAnsweredAlways(c, acts + [a]);
    var node :| Packet(c.home(id), r, ResolveResponse(id, node)) in s.sent;
    assert Packet(c.home(id), r, ResolveResponse(id, node)) in Apply(c, s, a).sent;
  }

  /** What one action adds to what an uninformed rank has heard. */
  lemma LearnedStep(c: Config, acts: seq<Action>, s: System, a: Action, r: NodeType, id: EntityID)
    requires c.Valid() && Run(c, acts) == Some(s) && Enabled(c, s, a) && Honest(c, acts, id) && c.Away(id, r)
    requires r !in Askers(s.ranks[c.home(id)], id)
    requires LastHeard(acts, r, id) == Learned(c, acts, r, id)
    ensures LastHeard(acts + [a], r, id) == Learned(c, acts + [a], r, id)
  {
    var acts' := acts + [a];
    assert acts'[..|acts'| - 1] == acts;
    if a.Deliver? && a.packet.dst == r {
      if a.packet.msg.ResolveResponse? && a.packet.msg.id == id { ToldIsAsker(c, acts, s, r, id, a.packet); }
      AnswersAlways(c, acts, s, r, id);
    }
  }

  lemma {:induction false} LearnedIsHeard(c: Config, acts: seq<Action>, s: System, r: NodeType, id: EntityID)
    requires c.Valid() && Run(c, acts) == Some(s) && Honest(c, acts, id) && c.Away(id, r) && |s.ranks| == c.n
    requires r !in Askers(s.ranks[c.home(id)], id)
    ensures LastHeard(acts, r, id) == Learned(c, acts, r, id)
  {
    if acts != [] {
      var before, a := acts[..|acts| - 1], acts[|acts| - 1];
      var was := Run(c, before).value;
      LastAction(acts);
      SystemInvAlways(c, before);
      if r in Askers(was.ranks[c.home(id)], id) { AskersStay(c, before, was, a, r, id); }
      LearnedIsHeard(c, before, was, r, id);
      LearnedStep(c, before, was, a, r, id);
    }
  }

  /** The record of a rank that the home does not keep informed is right exactly when the
      home's entry, at the time of the last answer that reached the rank, or the target
      the rank itself named last, was already the node in question. No assumption on the
      order of deliveries or on patience is needed. */
  lemma UninformedExactly(c: Config, acts: seq<Action>, s: System, r: NodeType, id: EntityID, node: NodeType)
    requires c.Valid() && Run(c, acts) == Some(s) && Honest(c, acts, id) && c.Away(id, r) && |s.ranks| == c.n
    requires r !in Askers(s.ranks[c.home(id)], id) && s.ranks[r].recs.Exists(id)
    ensures KnownNode(s.ranks[r], id) == node <==> Learned(c, acts, r, id) == Some(node)
  {
    LearnedIsHeard(c, acts, s, r, id);
    CacheFollowsRun(c, acts, s, r, id);
  }
}
