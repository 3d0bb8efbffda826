/** What callers hear, as a function of the run: the answer each query gets at once, and
    the answer those who had to wait get in the end. */
module Answers {
  import opened Records
  import opened Recency
  import opened LookupTable
  import opened RankModel
  import opened Network
  import opened Protocol
  import opened Migration
  import opened RankInvariant
  import opened Waiters
  import opened Subscriptions
  import opened HomeDirectory
  import opened CacheHistory
  import opened Existence
  import opened ExistenceAnswers
  import Provenance

  lemma CallEnabled(c: Config, acts: seq<Action>, s: System, a: Action)
    requires c.Valid() && Run(c, acts) == Some(s) && (a.GetLocation? || a.EntityExists?) && c.IsRank(a.rank)
    ensures SystemInv(c, s) && Enabled(c, s, a)
  {
    SystemInvAlways(c, acts);
  }

  /** What a rank with or without a record of `id` knows about it: that it is here, what
      is on file at its home, or what was last heard elsewhere. */
  function Known(c: Config, acts: seq<Action>, r: NodeType, id: EntityID, recorded: bool): Option<NodeType> {
    if RegisteredAt(acts, r, id) then Some(r)
    else if !recorded then None
    else if r == c.home(id) then HomeEntry(c, acts, id)
    else LastHeard(acts, r, id)
  }

  /** The record of a rank, if it has one, is what the run says it knows. */
  lemma RecordIsKnown(c: Config, acts: seq<Action>, s: System, r: NodeType, id: EntityID)
    requires c.Valid() && Run(c, acts) == Some(s) && c.IsRank(r) && (r == c.home(id) ==> Honest(c, acts, id))
    ensures |s.ranks| == c.n
    ensures id in s.ranks[r].local <==> RegisteredAt(acts, r, id)
    ensures id !in s.ranks[r].local && s.ranks[r].recs.Exists(id) ==>
              Known(c, acts, r, id, true) == Some(KnownNode(s.ranks[r], id))
    ensures r == c.home(id) ==> (s.ranks[r].recs.Exists(id) <==> HomeEntry(c, acts, id).Some?)
  {
    SystemInvAlways(c, acts);
    LocalFollowsRun(c, acts, s, r, id);
    if r == c.home(id) {
      DirectoryFollowsRun(c, acts, id);
      LayersAlwaysSeparate(c, acts, id);
      assert OwnOnlyOnFile(c, s.ranks[r], id);
    } else {
      CacheFollowsRun(c, acts, s, r, id);
    }
  }

  // ---------- location queries ----------

  /** A location query is answered at once, with what the rank knows, or it waits. */
  lemma GetLocationAnswers(c: Config, acts: seq<Action>, s: System, r: NodeType, id: EntityID, token: Token)
    requires c.Valid() && Run(c, acts) == Some(s) && c.IsRank(r) && (r == c.home(id) ==> Honest(c, acts, id))
    ensures Enabled(c, s, GetLocation(r, id, token))
    ensures
      var known := Known(c, acts, r, id, s.ranks[r].recs.Exists(id));
      Apply(c, s, GetLocation(r, id, token)).fired ==
        s.fired + if known.Some? then [Firing(r, id, token, Location(known.value))] else []
  {
    CallEnabled(c, acts, s, GetLocation(r, id, token));
    RecordIsKnown(c, acts, s, r, id);
  }

  /** The current host answers with itself, whatever its records say. */
  lemma HostAnswersItself(c: Config, acts: seq<Action>, s: System, r: NodeType, id: EntityID, token: Token)
    requires c.Valid() && Run(c, acts) == Some(s) && c.IsRank(r) && WhereIs(acts, id) == At(r)
    ensures Enabled(c, s, GetLocation(r, id, token)) && Enabled(c, s, EntityExists(r, id, token))
    ensures Apply(c, s, GetLocation(r, id, token)).fired == s.fired + [Firing(r, id, token, Location(r))]
    ensures Apply(c, s, EntityExists(r, id, token)).fired == s.fired + [Firing(r, id, token, Existence(true, r))]
  {
    CallEnabled(c, acts, s, GetLocation(r, id, token));
    CallEnabled(c, acts, s, EntityExists(r, id, token));
    HostHasRegistered(c, acts, s, id, r);
  }

  /** A rank that has just reported an emigration points to the new node. */
  lemma EmigrationAnswers(c: Config, acts: seq<Action>, s: System, r: NodeType, id: EntityID, n: NodeType, token: Token)
    requires c.Valid() && c.IsRank(r) && Run(c, acts + [Emigrate(r, id, n)]) == Some(s)
    ensures Enabled(c, s, GetLocation(r, id, token))
    ensures Apply(c, s, GetLocation(r, id, token)).fired == s.fired + [Firing(r, id, token, Location(n))]
  {
    var acts' := acts + [Emigrate(r, id, n)];
    assert acts'[..|acts'| - 1] == acts;
    CallEnabled(c, acts', s, GetLocation(r, id, token));
    LocalFollowsRun(c, acts', s, r, id);
    SystemInvAlways(c, acts);
    var k := Run(c, acts).value.ranks[r];
    UpdateThenRead(k.recs, id, MakeRec(id, n, k.me));
    assert s.ranks[r] == RankModel.Emigrate(k, id, n).state;
    assert s.ranks[r].recs.Read(id) == Some(MakeRec(id, n, k.me));
  }

  /** A rank that has just removed an entity knows nothing of it. */
  lemma RemovalForgets(c: Config, acts: seq<Action>, s: System, r: NodeType, id: EntityID, token: Token)
    requires c.Valid() && c.IsRank(r) && Run(c, acts + [Unregister(r, id)]) == Some(s)
    ensures Enabled(c, s, GetLocation(r, id, token))
    ensures Apply(c, s, GetLocation(r, id, token)).fired == s.fired
  {
    var acts' := acts + [Unregister(r, id)];
    assert acts'[..|acts'| - 1] == acts;
    CallEnabled(c, acts', s, GetLocation(r, id, token));
    LocalFollowsRun(c, acts', s, r, id);
    SystemInvAlways(c, acts);
    RemovedFromTable(Run(c, acts).value.ranks[r].recs, id);
  }

  /** After clearing its cache a rank has a record of exactly what it has on file. */
  lemma ClearingForgets(c: Config, acts: seq<Action>, s: System, r: NodeType, id: EntityID)
    requires c.Valid() && c.IsRank(r) && Run(c, acts + [ClearCache(r)]) == Some(s)
    ensures |s.ranks| == c.n
    ensures s.ranks[r].recs.Exists(id) <==> r == c.home(id) && HomeEntry(c, acts, id).Some?
  {
    var acts' := acts + [ClearCache(r)];
    assert acts'[..|acts'| - 1] == acts;
    SystemInvAlways(c, acts);
    SystemInvAlways(c, acts');
    DirectoryFollowsRun(c, acts, id);
    assert DirectoryInv(c, s.ranks[r]);
  }

  // ---------- existence queries ----------

  /** An existence query: yes with what the rank knows; no at a home that knows nothing;
      elsewhere it waits. */
  lemma EntityExistsAnswers(c: Config, acts: seq<Action>, s: System, r: NodeType, id: EntityID, token: Token)
    requires c.Valid() && Run(c, acts) == Some(s) && c.IsRank(r) && (r == c.home(id) ==> Honest(c, acts, id))
    ensures Enabled(c, s, EntityExists(r, id, token))
    ensures
      var known := Known(c, acts, r, id, s.ranks[r].recs.Exists(id));
      Apply(c, s, EntityExists(r, id, token)).fired == s.fired +
        if known.Some? then [Firing(r, id, token, Existence(true, known.value))]
        else if r == c.home(id) then [Firing(r, id, token, Existence(false, NO_NODE))]
        else []
  {
    CallEnabled(c, acts, s, EntityExists(r, id, token));
    RecordIsKnown(c, acts, s, r, id);
  }

  /** The home's own verdict obeys the same rule as the one it sends to others. */
  lemma OwnVerdictExactly(c: Config, acts: seq<Action>, s: System, id: EntityID, token: Token)
    requires c.Valid() && Run(c, acts) == Some(s)
    requires PatientRun(c, acts, id) && HostedRun(acts, id) && !UpdateInFlight(s.net, id)
    ensures Enabled(c, s, EntityExists(c.home(id), id, token))
    ensures
      var fires := Acts(c, s.ranks[c.home(id)], EntityExists(c.home(id), id, token)).fires;
      && Apply(c, s, EntityExists(c.home(id), id, token)).fired == s.fired + fires
      && |fires| == 1 && fires[0].answer.Existence?
      && (fires[0].answer.found <==> Remembered(c, acts, id))
      && ((fires[0].answer.found <==> WhereIs(acts, id) != Nowhere) <==> !RemovedAway(c, acts, id))
  {
    HostedIsReported(c, acts, id);
    HostsAreHonest(c, acts, id);
    EntityExistsAnswers(c, acts, s, c.home(id), id, token);
    RememberedExactly(c, acts, s, id);
    RememberedWhy(c, acts, id);
    RecordIsKnown(c, acts, s, c.home(id), id);
    DirectoryFollowsRun(c, acts, id);
    SystemInvAlways(c, acts);
    assert LocalInv(c, s.ranks[c.home(id)]);
  }

  /** Existence waiters hear what the home had on file when it answered their rank. */
  lemma ExistenceWaitersHear(c: Config, acts: seq<Action>, s: System, a: Action, r: NodeType, id: EntityID)
    requires c.Valid() && Run(c, acts) == Some(s) && Enabled(c, s, a) && Honest(c, acts, id) && c.Away(id, r)
    requires a.Deliver? && a.packet.dst == r && AnswersQuery(a.packet, id)
    ensures
      var entry := Answered(c, acts, r, id);
      Apply(c, s, a).fired == s.fired +
        Fire(r, id, Buffered(s.ranks[r].pendingExists, id),
             Existence(entry.Some?, if entry.Some? then entry.value else NO_NODE))
    ensures id !in Apply(c, s, a).ranks[r].pendingExists
  {
    SystemInvAlways(c, acts);
    AnswersAlways(c, acts, s, r, id);
  }

  // ---------- location waiters ----------

  /** At some point of the run the home had `node` on file for `id`. */
  ghost predicate OnceOnFile(c: Config, acts: seq<Action>, id: EntityID, node: NodeType) {
    exists i :: 0 <= i <= |acts| && HomeEntry(c, acts[..i], id) == Some(node)
  }

  lemma OnceStays(c: Config, acts: seq<Action>, a: Action, id: EntityID, node: NodeType)
    ensures OnceOnFile(c, acts, id, node) ==> OnceOnFile(c, acts + [a], id, node)
    ensures HomeEntry(c, acts, id) == Some(node) ==> OnceOnFile(c, acts, id, node)
  {
    if OnceOnFile(c, acts, id, node) {
      var i :| 0 <= i <= |acts| && HomeEntry(c, acts[..i], id) == Some(node);
      assert (acts + [a])[..i] == acts[..i];
    }
    assert acts[..|acts|] == acts;
  }

  /** What a step of the home tells about `id` is on file before or after it. */
  lemma TellsTheFile(c: Config, acts: seq<Action>, s: System, a: Action, id: EntityID, p: Packet)
    requires c.Valid() && Run(c, acts) == Some(s) && Enabled(c, s, a) && Honest(c, acts, id)
    requires p in Acts(c, s.ranks[a.Actor()], a).sends && p.msg.ResolveResponse? && p.msg.id == id
    ensures Some(p.msg.node) in {HomeEntry(c, acts, id), HomeEntry(c, acts + [a], id)}
  {
    var acts', k := acts + [a], s.ranks[a.Actor()];
    assert acts'[..|acts'| - 1] == acts;
    SystemInvAlways(c, acts);
    ActsKeeps(c, s, a);
    SendsAreOwn(c, k, a);
    assert Addressed(c, p);
    if Announces(c, a, id) {
      ActsAnnounces(c, k, a, id);
      AnnounceSends(k, id, AnnouncedNode(c, a, id), a.order);
    } else {
      RecordIsKnown(c, acts, s, c.home(id), id);
      DirectoryFollowsRun(c, acts, id);
      RequestTellsTheFile(c, k, a, id, p);
    }
  }

  lemma RequestTellsTheFile(c: Config, k: RankState, a: Action, id: EntityID, p: Packet)
    requires 1 <= k.recs.cap && k.me == a.Actor() == c.home(id) && !Announces(c, a, id) && LocalInv(c, k)
    requires p in Acts(c, k, a).sends && p.msg.ResolveResponse? && p.msg.id == id
    requires k.recs.Exists(id) <==> OnFile(k, id).Some?
    ensures OnFile(k, id) == Some(p.msg.node)
  {
    if a.Register? || (a.Deliver? && a.packet.msg.UpdateHome?) { AnnounceElsewhere(c, k, a, id); }
  }

  /** Every location the home ever sent in a resolveResponse was on file at that time. */
  lemma {:induction false} SentWasOnFile(c: Config, acts: seq<Action>, s: System, id: EntityID, p: Packet)
    requires c.Valid() && Run(c, acts) == Some(s) && Honest(c, acts, id)
    requires p in s.sent && p.msg.ResolveResponse? && p.msg.id == id
    ensures OnceOnFile(c, acts, id, p.msg.node)
  {
    var before, a := acts[..|acts| - 1], acts[|acts| - 1];
    var was := Run(c, before).value;
    LastAction(acts);
    OnceStays(c, before, a, id, p.msg.node);
    if p in was.sent {
      SentWasOnFile(c, before, was, id, p);
    } else {
      TellsTheFile(c, before, was, a, id, p);
      assert acts[..|acts|] == acts;
    }
  }

  /** Location waiters away from home hear a node that the home had on file. */
  lemma LocationWaitersHear(c: Config, acts: seq<Action>, s: System, a: Action, r: NodeType, id: EntityID)
    requires c.Valid() && Run(c, acts) == Some(s) && Enabled(c, s, a) && Honest(c, acts, id) && c.Away(id, r)
    requires a.Deliver? && a.packet.dst == r && a.packet.msg.ResolveResponse? && a.packet.msg.id == id
    ensures OnceOnFile(c, acts, id, a.packet.msg.node)
    ensures Apply(c, s, a).fired ==
              s.fired + Fire(r, id, Buffered(s.ranks[r].pending, id), Location(a.packet.msg.node))
    ensures id !in Apply(c, s, a).ranks[r].pending
  {
    SystemInvAlways(c, acts);
    Provenance.TracedAlways(c, acts);
    SentWasOnFile(c, acts, s, id, a.packet);
  }

  /** Location waiters at home hear the node that is announced, and it goes on file. */
  lemma HomeWaitersHear(c: Config, acts: seq<Action>, s: System, a: Action, id: EntityID)
    requires c.Valid() && Run(c, acts) == Some(s) && Enabled(c, s, a) && Announces(c, a, id)
    ensures |s.ranks| == c.n && |Apply(c, s, a).ranks| == c.n
    ensures
      var node := AnnouncedNode(c, a, id);
      && HomeEntry(c, acts + [a], id) == Some(node)
      && Apply(c, s, a).fired ==
           s.fired + Fire(c.home(id), id, Buffered(s.ranks[c.home(id)].pending, id), Location(node))
      && id !in Apply(c, s, a).ranks[c.home(id)].pending
  {
    var acts' := acts + [a];
    assert acts'[..|acts'| - 1] == acts;
    SystemInvAlways(c, acts);
    if a.Deliver? { assert Addressed(c, a.packet); }
  }
}
