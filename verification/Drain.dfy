/** Draining: without further API calls every delivery schedule is finite, can only
    stop when nothing is in flight, and then has answered everyone it can answer. */
module Drain {
  import opened Records
  import opened RankModel
  import opened Network
  import opened Protocol
  import opened RankInvariant
  import opened Waiters
  import opened Callbacks

  // ---------- every schedule is finite ----------

  /** One delivery leads from `s` to `s'`. */
  ghost predicate Delivers(c: Config, s: System, s': System) {
    exists a: Action :: a.Deliver? && Enabled(c, s, a) && s' == Apply(c, s, a)
  }

  /** Updates spawn responses only, requests at most one response, responses nothing. */
  lemma HandlerTraffic(c: Config, k: RankState, a: Action)
    requires 1 <= k.recs.cap && a.Deliver?
    ensures
      var sends, p := Acts(c, k, a).sends, a.packet;
      && Count(sends, AllUpdates) == 0 && Count(sends, AllRequests) == 0
      && (Matches(AllResponses, p) ==> sends == [])
  {
    var sends := Acts(c, k, a).sends;
    CountNone(sends, AllUpdates);
    CountNone(sends, AllRequests);
  }

  /** Every delivery decreases (updates, requests, responses in flight) lexicographically. */
  lemma DeliveryDecreases(c: Config, s: System, a: Action)
    requires Enabled(c, s, a) && a.Deliver?
    ensures
      var s' := Apply(c, s, a);
      var u, u' := Count(s.net, AllUpdates), Count(s'.net, AllUpdates);
      var q, q' := Count(s.net, AllRequests), Count(s'.net, AllRequests);
      var r, r' := Count(s.net, AllResponses), Count(s'.net, AllResponses);
      u' < u || (u' == u && (q' < q || (q' == q && r' < r)))
  {
    var k := s.ranks[a.Actor()];
    HandlerTraffic(c, k, a);
    var sends := Acts(c, k, a).sends;
    CountExchange(s.net, a.index, sends, AllUpdates);
    CountExchange(s.net, a.index, sends, AllRequests);
    CountExchange(s.net, a.index, sends, AllResponses);
  }

  /** No schedule delivers forever, from any state and in any order. */
  lemma {:induction false} DrainTerminates(c: Config, schedule: nat -> System, start: nat)
    ensures exists i: nat :: start <= i && !Delivers(c, schedule(i), schedule(i + 1))
    decreases Count(schedule(start).net, AllUpdates), Count(schedule(start).net, AllRequests),
              Count(schedule(start).net, AllResponses)
  {
    if Delivers(c, schedule(start), schedule(start + 1)) {
      var a: Action :| a.Deliver? && Enabled(c, schedule(start), a) && schedule(start + 1) == Apply(c, schedule(start), a);
      DeliveryDecreases(c, schedule(start), a);
      DrainTerminates(c, schedule, start + 1);
    }
  }

  // ---------- a schedule can only stop when nothing is in flight ----------

  lemma {:induction false} AnyOrder(s: set<NodeType>) returns (order: seq<NodeType>)
    ensures Enumerates(order, s)
  {
    if s == {} {
      order := [];
    } else {
      var y: NodeType :| y in s || forall z :: z !in s;
      assert y !in s ==> s == {};
      var rest := AnyOrder(s - {y});
      order := [y] + rest;
      assert s == (s - {y}) + {y};
      assert multiset(s) == multiset(s - {y}) + multiset{y};
    }
  }

  /** Every packet in flight can be delivered next. */
  lemma DeliveryEnabled(c: Config, s: System, i: nat) returns (a: Action)
    requires c.Valid() && SystemInv(c, s) && i < |s.net|
    ensures a.Deliver? && a.index == i && Enabled(c, s, a)
  {
    var p := s.net[i];
    assert Addressed(c, p);
    var order := [];
    if p.msg.UpdateHome? { order := AnyOrder(Askers(s.ranks[p.dst], p.msg.id)); }
    a := Deliver(i, p, order);
  }

  lemma Regroup(x: seq<Action>, y: seq<Action>, z: seq<Action>)
    ensures (x + y) + z == x + (y + z)
  {
  }

  lemma RunOneMore(c: Config, acts: seq<Action>, a: Action)
    requires Run(c, acts).Some? && Enabled(c, Run(c, acts).value, a)
    ensures Run(c, acts + [a]) == Some(Apply(c, Run(c, acts).value, a))
  {
    var acts' := acts + [a];
    assert acts'[..|acts'| - 1] == acts;
  }

  /** A run with something in flight can go on with a delivery, which decreases the measure. */
  lemma OneDelivery(c: Config, acts: seq<Action>) returns (a: Action)
    requires c.Valid() && Run(c, acts).Some? && Run(c, acts).value.net != []
    ensures a.Deliver? && Run(c, acts + [a]).Some?
    ensures
      var s, s' := Run(c, acts).value, Run(c, acts + [a]).value;
      var u, u' := Count(s.net, AllUpdates), Count(s'.net, AllUpdates);
      var q, q' := Count(s.net, AllRequests), Count(s'.net, AllRequests);
      var r, r' := Count(s.net, AllResponses), Count(s'.net, AllResponses);
      u' < u || (u' == u && (q' < q || (q' == q && r' < r)))
  {
    SystemInvAlways(c, acts);
    a := DeliveryEnabled(c, Run(c, acts).value, 0);
    RunOneMore(c, acts, a);
    DeliveryDecreases(c, Run(c, acts).value, a);
  }

  /** From every state of every run, some deliveries reach a state with nothing in flight. */
  lemma {:induction false} CanDrain(c: Config, acts: seq<Action>) returns (more: seq<Action>)
    requires c.Valid() && Run(c, acts).Some?
    ensures forall a :: a in more ==> a.Deliver?
    ensures Run(c, acts + more).Some? && Run(c, acts + more).value.net == []
    decreases Count(Run(c, acts).value.net, AllUpdates), Count(Run(c, acts).value.net, AllRequests),
              Count(Run(c, acts).value.net, AllResponses)
  {
    if Run(c, acts).value.net == [] {
      more := [];
      assert acts + more == acts;
    } else {
      var a := OneDelivery(c, acts);
      var rest := CanDrain(c, acts + [a]);
      more := [a] + rest;
      Regroup(acts, [a], rest);
    }
  }

  // ---------- what a drained system has answered ----------

  /** Once nothing is in flight, every existence callback and every location callback
      of an entity its home knows has been invoked exactly as often as it was issued. */
  lemma DrainedAnswersAll(c: Config, acts: seq<Action>, w: Callback)
    requires c.Valid() && Run(c, acts).Some? && Run(c, acts).value.net == [] && c.IsRank(w.rank)
    ensures |Run(c, acts).value.ranks| == c.n
    ensures
      var s := Run(c, acts).value;
      w.kind.ForExistence? || w.id in s.ranks[c.home(w.id)].recs.dir ==>
        TimesInvoked(s.fired, w) == TimesIssued(acts, w)
  {
    Conservation(c, acts, w);
    QuiescentWaiters(c, acts, w.rank, w.id);
    QuiescentExistence(c, acts, Run(c, acts).value, w.rank, w.id);
  }
}
