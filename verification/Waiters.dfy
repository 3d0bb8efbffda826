/** No waiter is lost: as long as a location callback is buffered away from home,
    its request, its place in the home's queue or its answer is still there. */
module Waiters {
  import opened Records
  import opened RankModel
  import opened Network
  import opened Protocol
  import opened RankInvariant

  // ================= location waiters =================

  ghost predicate Answering(c: Config, net: seq<Packet>, r: NodeType, id: EntityID) {
    exists node :: Packet(c.home(id), r, ResolveResponse(id, node)) in net
  }

  /** Somebody still owes rank `r` an answer about `id`. */
  ghost predicate Owed(c: Config, s: System, r: NodeType, id: EntityID)
    requires c.IsRank(c.home(id)) && |s.ranks| == c.n
  {
    || Packet(r, c.home(id), LocationRequest(id, r)) in s.net
    || r in Buffered(s.ranks[c.home(id)].pendingHome, id)
    || Answering(c, s.net, r, id)
  }

  ghost predicate NoLostWaiter(c: Config, s: System)
    requires c.Valid() && |s.ranks| == c.n
  {
    forall r, id :: c.Away(id, r) && id in s.ranks[r].pending ==> Owed(c, s, r, id)
  }

  lemma FanoutHits(src: NodeType, dsts: seq<NodeType>, msg: Msg, dst: NodeType)
    requires dst in dsts
    ensures Packet(src, dst, msg) in Fanout(src, dsts, msg)
  {
    var i :| 0 <= i < |dsts| && dsts[i] == dst;
    assert Fanout(src, dsts, msg)[i] == Packet(src, dst, msg);
  }

  /** A requester queued at the home stays queued until it is answered. */
  lemma QueueMoves(c: Config, k: RankState, a: Action, r: NodeType, id: EntityID)
    requires 1 <= k.recs.cap && k.me == c.home(id) && r in Buffered(k.pendingHome, id)
    ensures
      var e := Acts(c, k, a);
      r in Buffered(e.state.pendingHome, id) || Answering(c, e.sends, r, id)
  {
    var e := Acts(c, k, a);
    if a.Register? && a.id == id {
      if c.home(id) == k.me {
        FanoutHits(k.me, Buffered(k.pendingHome, id), ResolveResponse(id, k.me), r);
        assert Packet(c.home(id), r, ResolveResponse(id, k.me)) in e.sends;
      }
    } else if a.Deliver? && a.packet.msg.UpdateHome? && a.packet.msg.id == id {
      FanoutHits(k.me, Buffered(k.pendingHome, id), ResolveResponse(id, a.packet.msg.node), r);
      assert Packet(c.home(id), r, ResolveResponse(id, a.packet.msg.node)) in e.sends;
    }
  }

  /** A request that reaches the home is answered or queued. */
  lemma RequestMoves(c: Config, k: RankState, r: NodeType, id: EntityID)
    requires k.me == c.home(id)
    ensures
      var e := OnLocationRequest(k, id, r);
      r in Buffered(e.state.pendingHome, id) || Answering(c, e.sends, r, id)
  {
    var e := OnLocationRequest(k, id, r);
    if k.recs.Exists(id) {
      assert Packet(k.me, r, ResolveResponse(id, KnownNode(k, id))) in e.sends;
    } else if id in k.local {
      assert Packet(k.me, r, ResolveResponse(id, k.me)) in e.sends;
    }
  }

  /** A rank that was already waiting is still owed an answer after any step. */
  lemma OwedStays(c: Config, s: System, a: Action, r: NodeType, id: EntityID)
    requires c.Valid() && SystemInv(c, s) && Enabled(c, s, a) && c.Away(id, r)
    requires Owed(c, s, r, id) && id in Apply(c, s, a).ranks[r].pending
    ensures Owed(c, Apply(c, s, a), r, id)
  {
    var s', h := Apply(c, s, a), c.home(id);
    var e := Acts(c, s.ranks[a.Actor()], a);
    NetStep(c, s, a);
    if r in Buffered(s.ranks[h].pendingHome, id) {
      if a.Actor() == h {
        QueueMoves(c, s.ranks[h], a, r, id);
        AnsweringSent(c, s, a, r, id);
      }
    } else if Packet(r, h, LocationRequest(id, r)) in s.net {
      if a.Deliver? && a.packet == Packet(r, h, LocationRequest(id, r)) {
        RequestMoves(c, s.ranks[h], r, id);
        AnsweringSent(c, s, a, r, id);
      }
    } else {
      var node :| Packet(h, r, ResolveResponse(id, node)) in s.net;
      assert Packet(h, r, ResolveResponse(id, node)) in s'.net;
    }
  }

  lemma AnsweringSent(c: Config, s: System, a: Action, r: NodeType, id: EntityID)
    requires Enabled(c, s, a)
    ensures Answering(c, Acts(c, s.ranks[a.Actor()], a).sends, r, id) ==> Answering(c, Apply(c, s, a).net, r, id)
  {
    NetStep(c, s, a);
  }

  /** The action tells its rank where `id` is: an announcement or a response. */
  predicate Tells(c: Config, a: Action, id: EntityID) {
    Announces(c, a, id) || (a.Deliver? && a.packet.msg.ResolveResponse? && a.packet.msg.id == id)
  }

  function ToldNode(c: Config, a: Action, id: EntityID): NodeType
    requires Tells(c, a, id)
  {
    if a.Register? then a.rank else a.packet.msg.node
  }

  /** The buffer of location callbacks for one entity changes in two ways only: a
      call appends its own callback, invokes nothing and asks the home if it is the
      first; or the whole buffer is invoked, in order, with the node just told. */
  lemma PendingChange(c: Config, k: RankState, a: Action, id: EntityID)
    requires 1 <= k.recs.cap && k.me == a.Actor()
    requires Buffered(Acts(c, k, a).state.pending, id) != Buffered(k.pending, id)
    ensures
      var e, was := Acts(c, k, a), Buffered(k.pending, id);
      var now := Buffered(e.state.pending, id);
      || (&& a.GetLocation? && a.id == id && now == was + [a.token] && e.fires == []
          && e.sends == if |now| == 1 && c.home(id) != k.me
                        then [Packet(k.me, c.home(id), LocationRequest(id, k.me))] else [])
      || (now == [] && Tells(c, a, id) && e.fires == Fire(k.me, id, was, Location(ToldNode(c, a, id))))
  {
    match a
    case Register(_, x, _) => assert x == id && c.home(x) == k.me;
    case Deliver(_, packet, _) => assert packet.msg.id == id;
    case _ =>
  }

  /** The first waiter away from home sends the request. */
  lemma NewWaiterAsks(c: Config, s: System, a: Action, r: NodeType, id: EntityID)
    requires c.Valid() && SystemInv(c, s) && Enabled(c, s, a) && c.Away(id, r)
    requires id !in s.ranks[r].pending && id in Apply(c, s, a).ranks[r].pending
    ensures Packet(r, c.home(id), LocationRequest(id, r)) in Acts(c, s.ranks[a.Actor()], a).sends
  {
    ActsKeeps(c, s, a);
    assert a.Actor() == r;
    PendingChange(c, s.ranks[r], a, id);
  }

  lemma NoLostWaiterStep(c: Config, s: System, a: Action)
    requires c.Valid() && SystemInv(c, s) && Enabled(c, s, a) && NoLostWaiter(c, s)
    ensures NoLostWaiter(c, Apply(c, s, a))
  {
    var s' := Apply(c, s, a);
    forall r, id | c.Away(id, r) && id in s'.ranks[r].pending ensures Owed(c, s', r, id) {
      if id in s.ranks[r].pending {
        OwedStays(c, s, a, r, id);
      } else {
        NewWaiterAsks(c, s, a, r, id);
        NetStep(c, s, a);
      }
    }
  }

  /** No lost waiter, in every state of every run under any delivery order. */
  lemma {:induction false} NoLostWaiterAlways(c: Config, acts: seq<Action>)
    requires c.Valid() && Run(c, acts).Some?
    ensures |Run(c, acts).value.ranks| == c.n && NoLostWaiter(c, Run(c, acts).value)
  {
    SystemInvAlways(c, acts);
    if acts != [] {
      var before, a := acts[..|acts| - 1], acts[|acts| - 1];
      NoLostWaiterAlways(c, before);
      SystemInvAlways(c, before);
      NoLostWaiterStep(c, Run(c, before).value, a);
    }
  }

  /** When nothing is in flight, a rank still waits for `id` only if the home does
      not know `id`: anybody away from home then stands in the home's queue. */
  lemma QuiescentWaiters(c: Config, acts: seq<Action>, r: NodeType, id: EntityID)
    requires c.Valid() && Run(c, acts).Some? && Run(c, acts).value.net == [] && c.IsRank(r)
    ensures |Run(c, acts).value.ranks| == c.n
    ensures
      var s := Run(c, acts).value;
      id in s.ranks[r].pending ==>
        && id !in s.ranks[c.home(id)].recs.dir
        && (r != c.home(id) ==> r in Buffered(s.ranks[c.home(id)].pendingHome, id))
  {
    SystemInvAlways(c, acts);
    NoLostWaiterAlways(c, acts);
    var s := Run(c, acts).value;
    if id in s.ranks[r].pending {
      assert DirectoryInv(c, s.ranks[c.home(id)]);
      if r != c.home(id) { assert Owed(c, s, r, id); }
    }
  }

  // ================= existence waiters =================

  /** Exactly one request or response is in flight for a rank that waits to learn
      whether `id` exists, and none for a rank that does not. */
  ghost predicate ExistenceExact(c: Config, s: System)
    requires |s.ranks| == c.n
  {
    forall r, id :: c.IsRank(r) ==>
      Count(s.net, ExistenceOf(id, r)) == if id in s.ranks[r].pendingExists then 1 else 0
  }

  predicate AboutExistence(m: Msg) {
    m.ExistsRequest? || m.ExistsResponse?
  }

  /** Other calls and deliveries have no part in existence queries. */
  lemma NoExistenceTraffic(c: Config, k: RankState, a: Action)
    requires 1 <= k.recs.cap && !a.EntityExists? && !(a.Deliver? && AboutExistence(a.packet.msg))
    ensures Acts(c, k, a).state.pendingExists == k.pendingExists
    ensures forall p :: p in Acts(c, k, a).sends ==> !AboutExistence(p.msg)
  {
  }

  lemma ExistenceDelivery(c: Config, k: RankState, p: Packet, r: NodeType, id: EntityID)
    requires 1 <= k.recs.cap && AboutExistence(p.msg) && Addressed(c, p) && k.me == p.dst
    ensures
      var q, e := ExistenceOf(id, r), Handle(k, p.msg, []);
      && Count(e.sends, q) == (if p.msg.ExistsRequest? && Matches(q, p) then 1 else 0)
      && e.state.pendingExists == if p.msg.ExistsResponse? then k.pendingExists - {p.msg.id} else k.pendingExists
  {
    var e := Handle(k, p.msg, []);
    if p.msg.ExistsRequest? {
      CountOne(e.sends[0], ExistenceOf(id, r));
      assert e.sends == [e.sends[0]];
    }
  }

  lemma ExistenceCall(c: Config, k: RankState, x: EntityID, token: Token, r: NodeType, id: EntityID)
    ensures
      var q, e := ExistenceOf(id, r), RankModel.EntityExists(k, x, c.home(x), token);
      && e.state.pendingExists.Keys <= k.pendingExists.Keys + {x}
      && k.pendingExists.Keys <= e.state.pendingExists.Keys
      && (BufferInv(c, k) ==>
            Count(e.sends, q) == if r == k.me && id == x && x in e.state.pendingExists && x !in k.pendingExists then 1 else 0)
  {
    var e := RankModel.EntityExists(k, x, c.home(x), token);
    if |e.sends| == 1 {
      CountOne(e.sends[0], ExistenceOf(id, r));
      assert e.sends == [e.sends[0]];
    }
  }

  /** The traffic a step of rank `k` creates and consumes matches its change of buffer. */
  lemma ExistenceBalance(c: Config, s: System, a: Action, r: NodeType, id: EntityID)
    requires c.Valid() && SystemInv(c, s) && Enabled(c, s, a) && c.IsRank(r)
    requires Count(s.net, ExistenceOf(id, r)) == if id in s.ranks[r].pendingExists then 1 else 0
    ensures
      var q, e := ExistenceOf(id, r), Acts(c, s.ranks[a.Actor()], a);
      Count(s.net, q) - (if a.Deliver? && Matches(q, a.packet) then 1 else 0) + Count(e.sends, q)
      == if id in Apply(c, s, a).ranks[r].pendingExists then 1 else 0
  {
    var q, k := ExistenceOf(id, r), s.ranks[a.Actor()];
    var e := Acts(c, k, a);
    if a.EntityExists? {
      ExistenceCall(c, k, a.id, a.token, r, id);
    } else if a.Deliver? && AboutExistence(a.packet.msg) {
      assert e == Handle(k, a.packet.msg, []);
      ExistenceDelivery(c, k, a.packet, r, id);
      CountNone(s.net, q);
    } else {
      NoExistenceTraffic(c, k, a);
      CountNone(e.sends, q);
    }
  }

  lemma ExistenceExactStep(c: Config, s: System, a: Action)
    requires c.Valid() && SystemInv(c, s) && Enabled(c, s, a) && ExistenceExact(c, s)
    ensures |Apply(c, s, a).ranks| == c.n && ExistenceExact(c, Apply(c, s, a))
  {
    var s' := Apply(c, s, a);
    forall r, id | c.IsRank(r)
      ensures Count(s'.net, ExistenceOf(id, r)) == if id in s'.ranks[r].pendingExists then 1 else 0
    {
      var sends := Acts(c, s.ranks[a.Actor()], a).sends;
      ExistenceBalance(c, s, a, r, id);
      if a.Deliver? {
        CountExchange(s.net, a.index, sends, ExistenceOf(id, r));
      } else {
        CountAppend(s.net, sends, ExistenceOf(id, r));
      }
    }
  }

  lemma {:induction false} ExistenceExactAlways(c: Config, acts: seq<Action>)
    requires c.Valid() && Run(c, acts).Some?
    ensures |Run(c, acts).value.ranks| == c.n && ExistenceExact(c, Run(c, acts).value)
  {
    SystemInvAlways(c, acts);
    if acts != [] {
      var before, a := acts[..|acts| - 1], acts[|acts| - 1];
      ExistenceExactAlways(c, before);
      SystemInvAlways(c, before);
      ExistenceExactStep(c, Run(c, before).value, a);
    }
  }

  /** No existence waiter survives quiescence. */
  lemma QuiescentExistence(c: Config, acts: seq<Action>, s: System, r: NodeType, id: EntityID)
    requires c.Valid() && Run(c, acts) == Some(s) && s.net == [] && c.IsRank(r)
    ensures |s.ranks| == c.n && id !in s.ranks[r].pendingExists
  {
    ExistenceExactAlways(c, acts);
    assert Count([], ExistenceOf(id, r)) == 0;
  }
}
