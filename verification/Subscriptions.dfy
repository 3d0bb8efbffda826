/** What the home has told whom: the askers it remembers are exactly the ranks it has
    ever answered, and after an announcement the last thing each was told is what the
    directory says. */
module Subscriptions {
  import opened Records
  import opened RankModel
  import opened Network
  import opened Protocol
  import opened RankInvariant
  import opened Waiters

  // ---------- who has been answered ----------

  /** The home remembers `r` for `id` iff it ever sent `r` a location of `id` in answer
      to a request or as a refresh. */
  ghost predicate AskersAreAnswered(c: Config, s: System)
    requires c.Valid() && |s.ranks| == c.n
  {
    forall id, r :: r in Askers(s.ranks[c.home(id)], id) <==> Answering(c, s.sent, r, id)
  }

  lemma FanoutReaches(k: RankState, id: EntityID, node: NodeType, dsts: seq<NodeType>, p: Packet)
    requires p in Fanout(k.me, dsts, ResolveResponse(id, node))
    ensures p.src == k.me && p.msg == ResolveResponse(id, node) && p.dst in dsts
  {
    var i :| 0 <= i < |dsts| && Fanout(k.me, dsts, ResolveResponse(id, node))[i] == p;
  }

  /** An announcement sends to exactly the askers it leaves behind. */
  lemma AnnounceReaches(k: RankState, id: EntityID, node: NodeType, order: seq<NodeType>, r: NodeType)
    requires 1 <= k.recs.cap && Enumerates(order, Askers(k, id))
    ensures
      var e := Announce(k, id, node, order);
      r in Askers(e.state, id) <==> Packet(k.me, r, ResolveResponse(id, node)) in e.sends
  {
    var e, early, msg := Announce(k, id, node, order), Buffered(k.pendingHome, id), ResolveResponse(id, node);
    assert r in order <==> r in multiset(order);
    if r in order { FanoutHits(k.me, order, msg, r); }
    if r in early { FanoutHits(k.me, early, msg, r); }
    if Packet(k.me, r, msg) in e.sends {
      if Packet(k.me, r, msg) in Fanout(k.me, order, msg) { FanoutReaches(k, id, node, order, Packet(k.me, r, msg)); }
      else { FanoutReaches(k, id, node, early, Packet(k.me, r, msg)); }
    }
  }

  /** How many of the packets go to `r`. */
  function TimesSent(ps: seq<Packet>, r: NodeType): nat {
    if ps == [] then 0 else (if ps[0].dst == r then 1 else 0) + TimesSent(ps[1..], r)
  }

  lemma {:induction false} TimesSentFanout(src: NodeType, dsts: seq<NodeType>, msg: Msg, r: NodeType)
    ensures TimesSent(Fanout(src, dsts, msg), r) == multiset(dsts)[r]
  {
    if dsts != [] {
      TimesSentFanout(src, dsts[1..], msg, r);
      assert Fanout(src, dsts, msg)[1..] == Fanout(src, dsts[1..], msg);
      assert dsts == [dsts[0]] + dsts[1..];
    }
  }

  lemma {:induction false} TimesSentAppend(a: seq<Packet>, b: seq<Packet>, r: NodeType)
    ensures TimesSent(a + b, r) == TimesSent(a, r) + TimesSent(b, r)
  {
    if a == [] {
      assert a + b == b;
    } else {
      assert (a + b)[1..] == a[1..] + b;
      TimesSentAppend(a[1..], b, r);
    }
  }

  /** An announcement sends each former asker one refresh and each queued request one
      answer, and nothing else. */
  lemma AnnouncedOnce(k: RankState, id: EntityID, node: NodeType, order: seq<NodeType>, r: NodeType)
    requires 1 <= k.recs.cap && Enumerates(order, Askers(k, id))
    ensures TimesSent(Announce(k, id, node, order).sends, r) ==
            (if r in Askers(k, id) then 1 else 0) + multiset(Buffered(k.pendingHome, id))[r]
  {
    var early, msg := Buffered(k.pendingHome, id), ResolveResponse(id, node);
    TimesSentAppend(Fanout(k.me, order, msg), Fanout(k.me, early, msg), r);
    TimesSentFanout(k.me, order, msg, r);
    TimesSentFanout(k.me, early, msg, r);
  }

  /** Where and what the home announces in this action. */
  function AnnouncedNode(c: Config, a: Action, id: EntityID): NodeType
    requires Announces(c, a, id)
  {
    if a.Register? then a.rank else a.packet.msg.node
  }

  /** The queue at the home changes in two ways only: a request of an entity that is not
      known joins at the end and gets no answer yet, or the whole queue is answered, in
      the order of arrival, with the node announced. */
  lemma QueueChange(c: Config, k: RankState, a: Action, id: EntityID)
    requires 1 <= k.recs.cap && k.me == a.Actor() && (a.Deliver? ==> Addressed(c, a.packet))
    requires Buffered(Acts(c, k, a).state.pendingHome, id) != Buffered(k.pendingHome, id)
    ensures
      var e, was := Acts(c, k, a), Buffered(k.pendingHome, id);
      var now := Buffered(e.state.pendingHome, id);
      || (&& a.Deliver? && a.packet.msg.LocationRequest? && a.packet.msg.id == id
          && now == was + [a.packet.src] && e.sends == [])
      || (&& Announces(c, a, id) && now == []
          && |was| <= |e.sends|
          && e.sends[|e.sends| - |was|..] == Fanout(k.me, was, ResolveResponse(id, AnnouncedNode(c, a, id))))
  {
    if !(a.Deliver? && a.packet.msg.LocationRequest?) {
      assert Announces(c, a, id);
    }
  }

  lemma AnnounceSends(k: RankState, id: EntityID, node: NodeType, order: seq<NodeType>)
    requires 1 <= k.recs.cap
    ensures forall p :: p in Announce(k, id, node, order).sends ==>
              p.src == k.me && p.msg == ResolveResponse(id, node)
  {
    var e, early, msg := Announce(k, id, node, order), Buffered(k.pendingHome, id), ResolveResponse(id, node);
    forall p | p in e.sends ensures p.src == k.me && p.msg == msg {
      if p in Fanout(k.me, order, msg) { FanoutReaches(k, id, node, order, p); }
      else { FanoutReaches(k, id, node, early, p); }
    }
  }

  /** An announcing action behaves as `Announce` on the home. */
  lemma ActsAnnounces(c: Config, k: RankState, a: Action, id: EntityID)
    requires 1 <= k.recs.cap && k.me == a.Actor() == c.home(id) && Announces(c, a, id)
    ensures
      var e, f := Acts(c, k, a), Announce(k, id, AnnouncedNode(c, a, id), a.order);
      && e.sends == f.sends && e.fires == f.fires
      && e.state.recs == f.state.recs && e.state.locAsks == f.state.locAsks
  {
  }

  /** Askers grow by exactly those answered in the step. */
  lemma AskersGrow(c: Config, s: System, a: Action, id: EntityID, r: NodeType)
    requires c.Valid() && SystemInv(c, s) && Enabled(c, s, a) && a.Actor() == c.home(id)
    ensures
      var k := s.ranks[a.Actor()];
      var e := Acts(c, k, a);
      r in Askers(e.state, id) <==> r in Askers(k, id) || Answering(c, e.sends, r, id)
  {
    var k := s.ranks[a.Actor()];
    var e := Acts(c, k, a);
    if Announces(c, a, id) {
      var node := AnnouncedNode(c, a, id);
      ActsAnnounces(c, k, a, id);
      AnnounceReaches(k, id, node, a.order, r);
      AnnounceSends(k, id, node, a.order);
      assert r in Askers(k, id) ==> r in Askers(e.state, id);
    } else {
      AskersGrowQuietly(c, k, a, id, r);
    }
  }

  /** Registering or learning of another entity does not concern `id`. */
  lemma AnnounceElsewhere(c: Config, k: RankState, a: Action, id: EntityID)
    requires 1 <= k.recs.cap && k.me == a.Actor() == c.home(id) && !Announces(c, a, id)
    requires a.Register? || (a.Deliver? && a.packet.msg.UpdateHome?)
    ensures
      var e := Acts(c, k, a);
      && Askers(e.state, id) == Askers(k, id)
      && (forall p :: p in e.sends ==> p.msg.id != id)
      && (id in k.recs.dir ==> id in e.state.recs.dir && e.state.recs.dir[id] == k.recs.dir[id])
  {
    if a.Register? {
      if c.home(a.id) == k.me { AnnounceSends(k.(local := k.local + {a.id}), a.id, k.me, a.order); }
    } else {
      AnnounceSends(k, a.packet.msg.id, a.packet.msg.node, a.order);
    }
  }

  lemma AskersGrowQuietly(c: Config, k: RankState, a: Action, id: EntityID, r: NodeType)
    requires 1 <= k.recs.cap && k.me == a.Actor() == c.home(id) && !Announces(c, a, id)
    requires a.Deliver? ==> Addressed(c, a.packet)
    ensures
      var e := Acts(c, k, a);
      r in Askers(e.state, id) <==> r in Askers(k, id) || Answering(c, e.sends, r, id)
  {
    var e := Acts(c, k, a);
    if a.Register? || (a.Deliver? && a.packet.msg.UpdateHome?) {
      AnnounceElsewhere(c, k, a, id);
    } else if a.Deliver? && a.packet.msg.LocationRequest? {
      var x, q := a.packet.msg.id, a.packet.msg.requester;
      if x == id && r == q && (k.recs.Exists(id) || id in k.local) {
        assert e.sends[0] == Packet(c.home(id), r, ResolveResponse(id, e.sends[0].msg.node));
      }
    }
  }

  /** A rank other than the home never answers on its behalf. */
  lemma OthersDoNotAnswer(c: Config, s: System, a: Action, id: EntityID, r: NodeType)
    requires c.Valid() && SystemInv(c, s) && Enabled(c, s, a) && a.Actor() != c.home(id)
    ensures !Answering(c, Acts(c, s.ranks[a.Actor()], a).sends, r, id)
  {
    ActsKeeps(c, s, a);
    SendsAreOwn(c, s.ranks[a.Actor()], a);
  }

  lemma SendsAreOwn(c: Config, k: RankState, a: Action)
    requires 1 <= k.recs.cap && k.me == a.Actor()
    ensures forall p :: p in Acts(c, k, a).sends ==> p.src == k.me
  {
    match a
    case Register(_, x, order) =>
      if c.home(x) == k.me { AnnounceSends(k.(local := k.local + {x}), x, k.me, order); }
    case Deliver(_, p, order) =>
      if p.msg.UpdateHome? { AnnounceSends(k, p.msg.id, p.msg.node, order); }
    case _ =>
  }

  lemma AskersAreAnsweredStep(c: Config, s: System, a: Action)
    requires c.Valid() && SystemInv(c, s) && Enabled(c, s, a) && AskersAreAnswered(c, s)
    ensures AskersAreAnswered(c, Apply(c, s, a))
  {
    var s' := Apply(c, s, a);
    var sends := Acts(c, s.ranks[a.Actor()], a).sends;
    forall id, r ensures r in Askers(s'.ranks[c.home(id)], id) <==> Answering(c, s'.sent, r, id) {
      assert Answering(c, s'.sent, r, id) <==> Answering(c, s.sent, r, id) || Answering(c, sends, r, id) by {
        forall node ensures
          var p := Packet(c.home(id), r, ResolveResponse(id, node));
          p in s'.sent <==> p in s.sent || p in sends
        {
        }
      }
      if a.Actor() == c.home(id) { AskersGrow(c, s, a, id, r); }
      else { OthersDoNotAnswer(c, s, a, id, r); }
    }
  }

  lemma {:induction false} AskersAreAnsweredAlways(c: Config, acts: seq<Action>)
    requires c.Valid() && Run(c, acts).Some?
    ensures |Run(c, acts).value.ranks| == c.n && AskersAreAnswered(c, Run(c, acts).value)
  {
    SystemInvAlways(c, acts);
    if acts != [] {
      var before, a := acts[..|acts| - 1], acts[|acts| - 1];
      AskersAreAnsweredAlways(c, before);
      SystemInvAlways(c, before);
      AskersAreAnsweredStep(c, Run(c, before).value, a);
    } else {
      assert AskersAreAnswered(c, Init(c));
    }
  }

  // ---------- what they were last told ----------

  /** The home repoints or drops its own entry without telling anybody. */
  predicate Unsettles(c: Config, a: Action, id: EntityID) {
    (a.Emigrate? || a.Unregister?) && a.id == id && a.rank == c.home(id)
  }

  /** The latest of announcements, emigrations and removals of `id` at its home is an
      announcement. */
  predicate Settled(c: Config, acts: seq<Action>, id: EntityID) {
    if acts == [] then false
    else
      var a := acts[|acts| - 1];
      Announces(c, a, id) || (!Unsettles(c, a, id) && Settled(c, acts[..|acts| - 1], id))
  }

  /** Everyone the home has answered was last told what the directory says. */
  ghost predicate ToldTheTruth(c: Config, s: System, id: EntityID)
    requires c.IsRank(c.home(id)) && |s.ranks| == c.n
  {
    var h := s.ranks[c.home(id)];
    && id in h.recs.dir
    && forall r :: r in Askers(h, id) ==> Newest(s.sent, r, id) == Some(h.recs.dir[id].curNode)
  }

  /** All packets that tell `dst` about `id` name `node`. */
  ghost predicate OnlyTells(ps: seq<Packet>, dst: NodeType, id: EntityID, node: NodeType) {
    forall p :: p in ps && p.dst == dst && BearsLocation(p, id) ==> p.msg.node == node
  }

  lemma {:induction false} OnlyTellsNewest(ps: seq<Packet>, dst: NodeType, id: EntityID, node: NodeType)
    requires OnlyTells(ps, dst, id, node)
    ensures Newest(ps, dst, id).Some? ==> Newest(ps, dst, id) == Some(node)
  {
    if ps != [] {
      assert ps[|ps| - 1] in ps;
      assert forall p :: p in ps[..|ps| - 1] ==> p in ps;
      OnlyTellsNewest(ps[..|ps| - 1], dst, id, node);
    }
  }

  /** Sending packets that only tell `node`, at least one of them to `dst`. */
  lemma NewestTold(sent: seq<Packet>, ps: seq<Packet>, dst: NodeType, id: EntityID, node: NodeType)
    requires OnlyTells(ps, dst, id, node)
    requires Newest(sent, dst, id) == Some(node) || exists p :: p in ps && p.dst == dst && BearsLocation(p, id)
    ensures Newest(sent + ps, dst, id) == Some(node)
  {
    NewestAppend(sent, ps, dst, id);
    NewestNone(ps, dst, id);
    OnlyTellsNewest(ps, dst, id, node);
  }

  /** While the home knows `id` and does not touch its entry, it tells what it knows. */
  lemma QuietTelling(c: Config, k: RankState, a: Action, id: EntityID, r: NodeType)
    requires 1 <= k.recs.cap && k.me == a.Actor() == c.home(id) && id in k.recs.dir
    requires !Announces(c, a, id) && !Unsettles(c, a, id)
    requires a.Deliver? ==> Addressed(c, a.packet)
    ensures
      var e := Acts(c, k, a);
      && id in e.state.recs.dir && e.state.recs.dir[id] == k.recs.dir[id]
      && OnlyTells(e.sends, r, id, k.recs.dir[id].curNode)
  {
    if a.Register? || (a.Deliver? && a.packet.msg.UpdateHome?) {
      AnnounceElsewhere(c, k, a, id);
    }
  }

  lemma AnnounceTells(c: Config, s: System, a: Action, id: EntityID)
    requires c.Valid() && SystemInv(c, s) && Enabled(c, s, a) && Announces(c, a, id)
    ensures ToldTheTruth(c, Apply(c, s, a), id)
  {
    if a.Deliver? { assert Addressed(c, a.packet); }
    var s', h := Apply(c, s, a), c.home(id);
    var k := s.ranks[h];
    var sends, node := Acts(c, k, a).sends, AnnouncedNode(c, a, id);
    ActsAnnounces(c, k, a, id);
    AnnounceSends(k, id, node, a.order);
    forall r | r in Askers(s'.ranks[h], id) ensures Newest(s'.sent, r, id) == Some(node) {
      AnnounceReaches(k, id, node, a.order, r);
      NewestTold(s.sent, sends, r, id, node);
    }
  }

  lemma ToldTheTruthStays(c: Config, s: System, a: Action, id: EntityID)
    requires c.Valid() && SystemInv(c, s) && Enabled(c, s, a) && ToldTheTruth(c, s, id)
    requires !Announces(c, a, id) && !Unsettles(c, a, id)
    ensures ToldTheTruth(c, Apply(c, s, a), id)
  {
    var s', h := Apply(c, s, a), c.home(id);
    var k := s.ranks[a.Actor()];
    var sends, node := Acts(c, k, a).sends, s.ranks[h].recs.dir[id].curNode;
    if a.Deliver? { assert Addressed(c, a.packet); }
    ActsKeeps(c, s, a);
    SendsAreOwn(c, k, a);
    forall r | r in Askers(s'.ranks[h], id) ensures Newest(s'.sent, r, id) == Some(node) {
      if a.Actor() == h {
        QuietTelling(c, k, a, id, r);
        AskersGrow(c, s, a, id, r);
      }
      NewestTold(s.sent, sends, r, id, node);
    }
    if a.Actor() == h { QuietTelling(c, k, a, id, h); }
  }

  /** From each announcement until the next silent change at the home, the last
      location ever sent to each remembered asker is the directory's. */
  lemma {:induction false} SettledTellsTruth(c: Config, acts: seq<Action>, id: EntityID)
    requires c.Valid() && Run(c, acts).Some? && Settled(c, acts, id)
    ensures |Run(c, acts).value.ranks| == c.n && ToldTheTruth(c, Run(c, acts).value, id)
  {
    var before, a := acts[..|acts| - 1], acts[|acts| - 1];
    SystemInvAlways(c, before);
    if Announces(c, a, id) {
      AnnounceTells(c, Run(c, before).value, a, id);
    } else {
      SettledTellsTruth(c, before, id);
      ToldTheTruthStays(c, Run(c, before).value, a, id);
    }
  }
}
