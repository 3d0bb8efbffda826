/** Where the promises stop: concrete runs that break each hypothesis of the
    convergence and existence theorems in turn, keeping the others. */
module Limits {
  import opened Records
  import opened LookupTable
  import opened RankModel
  import opened Network
  import opened Protocol
  import opened Migration
  import opened HomeDirectory
  import opened Existence

  /** Three ranks, everything at home on rank 0, room for four records each. */
  function Three(): Config {
    Config(3, (id: EntityID) => 0, 4)
  }

  // ---------- runs about entity 7 that keep some of the rules ----------

  datatype Rules = Rules(fifo: bool, patient: bool, hosted: bool)

  const ALL := Rules(true, true, true)

  ghost predicate Reached(acts: seq<Action>, s: System, w: Where, rules: Rules) {
    && Run(Three(), acts) == Some(s) && WhereIs(acts, 7) == w
    && (rules.fifo ==> FifoRun(Three(), acts))
    && (rules.patient ==> PatientRun(Three(), acts, 7))
    && (rules.hosted ==> HostedRun(acts, 7))
  }

  function Moved(w: Where, a: Action): Where {
    match a
    case Register(r, x, _) => if x == 7 then At(r) else w
    case Emigrate(_, x, n) => if x == 7 then MovingTo(n) else w
    case Unregister(_, x) => if x == 7 then Nowhere else w
    case _ => w
  }

  lemma Begin(rules: Rules)
    ensures Reached([], Init(Three()), Nowhere, rules)
  {
  }

  /** One more action. */
  lemma Go(acts: seq<Action>, s: System, w: Where, rules: Rules, a: Action) returns (acts': seq<Action>)
    requires Reached(acts, s, w, rules) && Enabled(Three(), s, a)
    requires (rules.fifo ==> Fifo(s, a)) && (rules.patient ==> Patient(s, a, 7))
    requires rules.hosted && (a.Emigrate? || a.Unregister?) && a.id == 7 ==> w == At(a.rank)
    ensures acts' == acts + [a] && Reached(acts', Apply(Three(), s, a), Moved(w, a), rules)
  {
    acts' := acts + [a];
    assert acts'[..|acts'| - 1] == acts;
  }

  // ---------- states ----------

  /** `net` is in flight, nobody has asked anything, and the home says `node` or nothing. */
  ghost predicate Quiet(s: System, net: seq<Packet>, node: Option<NodeType>) {
    && |s.ranks| == 3 && s.net == net
    && (forall r :: 0 <= r < 3 ==> s.ranks[r].recs.cap == 4 && s.ranks[r].me == r)
    && 7 !in s.ranks[0].pendingHome && Askers(s.ranks[0], 7) == {}
    && OnFile(s.ranks[0], 7) == node
  }

  /** Rank 2 has never heard of entity 7. */
  ghost predicate Unaware(s: System) {
    && |s.ranks| == 3 && 7 !in s.ranks[2].local && s.ranks[2].recs == Table(map[], [], 4)
    && s.ranks[2].pending == map[] && s.ranks[2].pendingExists == map[]
  }

  /** Rank 2 believes that entity 7 is at home. */
  ghost predicate Cached(s: System) {
    |s.ranks| == 3 && s.ranks[2].recs.Exists(7) && KnownNode(s.ranks[2], 7) == 0
  }

  const FIRST := Register(0, 7, [])

  lemma RegistersAtHome()
    ensures
      var s := Init(Three());
      Enabled(Three(), s, FIRST) && Quiet(Apply(Three(), s, FIRST), [], Some(0)) && Unaware(Apply(Three(), s, FIRST))
  {
    assert Apply(Three(), Init(Three()), FIRST).net == [];
  }

  lemma RegistersAway(s: System, r: NodeType, net: seq<Packet>, node: Option<NodeType>)
    requires Quiet(s, net, node) && r in {1, 2}
    ensures
      var a := Register(r, 7, []);
      && Enabled(Three(), s, a)
      && Quiet(Apply(Three(), s, a), net + [Packet(r, 0, UpdateHome(7, r))], node)
      && Apply(Three(), s, a).ranks[2].recs == s.ranks[2].recs
  {
  }

  lemma UpdateArrives(s: System, i: nat, r: NodeType, net: seq<Packet>, node: Option<NodeType>)
    requires Quiet(s, net, node) && i < |net| && net[i] == Packet(r, 0, UpdateHome(7, r))
    ensures
      var a := Deliver(i, net[i], []);
      && Enabled(Three(), s, a) && Quiet(Apply(Three(), s, a), RemoveAt(net, i), Some(r))
      && Apply(Three(), s, a).ranks[2] == s.ranks[2]
  {
    var a := Deliver(i, net[i], []);
    assert Acts(Three(), s.ranks[0], a).sends == [];
    assert Apply(Three(), s, a).net == RemoveAt(net, i);
  }

  const UP_ONE := Packet(1, 0, UpdateHome(7, 1))
  const UP_TWO := Packet(2, 0, UpdateHome(7, 2))
  const COME_ONE := Register(1, 7, [])
  const COME_TWO := Register(2, 7, [])
  const HEAR_ONE := Deliver(0, UP_ONE, [])

  /** Entity 7 begins its life on rank 1, and the update is in flight. */
  lemma BornAway(rules: Rules) returns (acts: seq<Action>, s: System)
    ensures Reached(acts, s, At(1), rules) && Quiet(s, [UP_ONE], None) && acts == [COME_ONE]
  {
    var i := Init(Three());
    Begin(rules);
    RegistersAway(i, 1, [], None);
    acts := Go([], i, Nowhere, rules, COME_ONE);
    s := Apply(Three(), i, COME_ONE);
  }

  lemma BornAtHome(rules: Rules) returns (acts: seq<Action>, s: System)
    ensures Reached(acts, s, At(0), rules) && Quiet(s, [], Some(0)) && Unaware(s)
  {
    Begin(rules);
    RegistersAtHome();
    acts := Go([], Init(Three()), Nowhere, rules, FIRST);
    s := Apply(Three(), Init(Three()), FIRST);
  }

  // ---------- without FIFO: an informed cache goes stale ----------

  const ASK := Packet(2, 0, LocationRequest(7, 2))
  const FIRST_ANSWER := Packet(0, 2, ResolveResponse(7, 0))
  const REFRESH := Packet(0, 2, ResolveResponse(7, 1))
  const QUERY := GetLocation(2, 7, 100)
  const ANSWER := Deliver(0, ASK, [])
  const LEAVE := Emigrate(0, 7, 1)
  const TELL := Deliver(1, UP_ONE, [2])
  const NEW_FIRST := Deliver(1, REFRESH, [])
  const OLD_LAST := Deliver(0, FIRST_ANSWER, [])
  const UNORDERED := Rules(false, true, true)

  /** The home says `node` and keeps rank 2 informed; rank 2 has heard nothing yet. */
  ghost predicate Informed(s: System, net: seq<Packet>, node: NodeType) {
    && |s.ranks| == 3 && s.net == net
    && (forall r :: 0 <= r < 3 ==> s.ranks[r].recs.cap == 4 && s.ranks[r].me == r)
    && OnFile(s.ranks[0], 7) == Some(node)
    && 7 !in s.ranks[0].pendingHome && Askers(s.ranks[0], 7) == {2}
    && s.ranks[2].recs == Table(map[], [], 4)
  }

  lemma Asks(s: System)
    requires Quiet(s, [], Some(0)) && Unaware(s)
    ensures Enabled(Three(), s, QUERY) && Quiet(Apply(Three(), s, QUERY), [ASK], Some(0))
    ensures Apply(Three(), s, QUERY).ranks[2].recs == s.ranks[2].recs
  {
    assert Apply(Three(), s, QUERY).net == [ASK];
  }

  lemma Answers(s: System)
    requires Quiet(s, [ASK], Some(0)) && s.ranks[2].recs == Table(map[], [], 4)
    ensures Enabled(Three(), s, ANSWER) && Informed(Apply(Three(), s, ANSWER), [FIRST_ANSWER], 0)
  {
    assert Apply(Three(), s, ANSWER).net == [FIRST_ANSWER];
  }

  /** Entity 7 registers at home; rank 2 asks and is answered. */
  lemma AskedRuns() returns (acts: seq<Action>, s: System)
    ensures Reached(acts, s, At(0), UNORDERED) && Informed(s, [FIRST_ANSWER], 0)
  {
    acts, s := BornAtHome(UNORDERED);
    Asks(s);
    acts := Go(acts, s, At(0), UNORDERED, QUERY);
    s := Apply(Three(), s, QUERY);
    Answers(s);
    acts := Go(acts, s, At(0), UNORDERED, ANSWER);
    s := Apply(Three(), s, ANSWER);
  }

  lemma Leaves(s: System)
    requires Informed(s, [FIRST_ANSWER], 0)
    ensures Enabled(Three(), s, LEAVE) && Informed(Apply(Three(), s, LEAVE), [FIRST_ANSWER], 1)
  {
    assert Apply(Three(), s, LEAVE).net == [FIRST_ANSWER];
  }

  lemma Arrives(s: System)
    requires Informed(s, [FIRST_ANSWER], 1)
    ensures Enabled(Three(), s, COME_ONE) && Informed(Apply(Three(), s, COME_ONE), [FIRST_ANSWER, UP_ONE], 1)
    ensures !UpdateInFlight(s.net, 7)
  {
    CountOne(FIRST_ANSWER, UpdatesOf(7));
    assert Apply(Three(), s, COME_ONE).net == [FIRST_ANSWER, UP_ONE];
  }

  lemma Tells(s: System)
    requires Informed(s, [FIRST_ANSWER, UP_ONE], 1)
    ensures Enabled(Three(), s, TELL) && Informed(Apply(Three(), s, TELL), [FIRST_ANSWER, REFRESH], 1)
  {
    assert Apply(Three(), s, TELL).net == [FIRST_ANSWER, REFRESH];
  }

  lemma LeftRuns() returns (acts: seq<Action>, s: System)
    ensures Reached(acts, s, MovingTo(1), UNORDERED) && Informed(s, [FIRST_ANSWER], 1)
  {
    acts, s := AskedRuns();
    Leaves(s);
    acts := Go(acts, s, At(0), UNORDERED, LEAVE);
    s := Apply(Three(), s, LEAVE);
  }

  /** The entity moves to rank 1, which tells the home, which refreshes rank 2. */
  lemma MovedRuns() returns (acts: seq<Action>, s: System)
    ensures Reached(acts, s, At(1), UNORDERED) && Informed(s, [FIRST_ANSWER, REFRESH], 1)
  {
    acts, s := LeftRuns();
    Arrives(s);
    acts := Go(acts, s, MovingTo(1), UNORDERED, COME_ONE);
    s := Apply(Three(), s, COME_ONE);
    Tells(s);
    acts := Go(acts, s, At(1), UNORDERED, TELL);
    s := Apply(Three(), s, TELL);
  }

  lemma NewOvertakes(s: System)
    requires Informed(s, [FIRST_ANSWER, REFRESH], 1)
    ensures Enabled(Three(), s, NEW_FIRST)
    ensures
      var m := Apply(Three(), s, NEW_FIRST);
      && m.net == [FIRST_ANSWER] && |m.ranks| == 3 && m.ranks[0] == s.ranks[0]
      && m.ranks[2].me == 2 && m.ranks[2].recs.dir == map[] && m.ranks[2].recs.cap == 4
  {
    assert Apply(Three(), s, NEW_FIRST).net == [FIRST_ANSWER];
  }

  lemma OldArrivesLast(m: System)
    requires m.net == [FIRST_ANSWER] && |m.ranks| == 3
    requires m.ranks[2].me == 2 && m.ranks[2].recs.dir == map[] && m.ranks[2].recs.cap == 4
    ensures Enabled(Three(), m, OLD_LAST)
    ensures
      var s := Apply(Three(), m, OLD_LAST);
      s.net == [] && s.ranks[0] == m.ranks[0] && Cached(s)
  {
    assert Apply(Three(), m, OLD_LAST).net == [];
  }

  /** Two responses overtake each other: nothing is in flight, the entity lives on
      rank 1, rank 2 is kept informed, and yet its cache says 0. */
  lemma StaleWithoutFifo() returns (acts: seq<Action>, s: System)
    ensures Reached(acts, s, At(1), UNORDERED) && s.net == [] && |s.ranks| == 3
    ensures 2 in Askers(s.ranks[0], 7) && OnFile(s.ranks[0], 7) == Some(1)
    ensures Cached(s)
  {
    acts, s := MovedRuns();
    NewOvertakes(s);
    acts := Go(acts, s, At(1), UNORDERED, NEW_FIRST);
    s := Apply(Three(), s, NEW_FIRST);
    OldArrivesLast(s);
    acts := Go(acts, s, At(1), UNORDERED, OLD_LAST);
    s := Apply(Three(), s, OLD_LAST);
  }

  // ---------- without patience: the home goes wrong ----------

  const HASTY := Rules(true, false, true)
  const GO_ON := Emigrate(1, 7, 2)
  const HEAR_TWO := Deliver(1, UP_TWO, [])

  lemma GoesOn(s: System)
    requires Quiet(s, [UP_ONE], None)
    ensures Enabled(Three(), s, GO_ON) && Quiet(Apply(Three(), s, GO_ON), [UP_ONE], None)
  {
    assert Apply(Three(), s, GO_ON).net == [UP_ONE];
  }

  /** The entity moves on from rank 1 to rank 2 before the home hears of rank 1. */
  lemma UpdatesCross() returns (acts: seq<Action>, s: System)
    ensures Reached(acts, s, At(2), HASTY) && Quiet(s, [UP_ONE, UP_TWO], None)
  {
    acts, s := BornAway(HASTY);
    GoesOn(s);
    acts := Go(acts, s, At(1), HASTY, GO_ON);
    s := Apply(Three(), s, GO_ON);
    RegistersAway(s, 2, [UP_ONE], None);
    acts := Go(acts, s, MovingTo(2), HASTY, COME_TWO);
    s := Apply(Three(), s, COME_TWO);
  }

  /** Updates from two ranks arrive in the wrong order, every channel being FIFO:
      nothing is in flight, the entity lives on rank 2, and yet the home says 1. */
  lemma HomeWrongWithoutWaiting() returns (acts: seq<Action>, s: System)
    ensures Reached(acts, s, At(2), HASTY) && s.net == [] && |s.ranks| == 3
    ensures OnFile(s.ranks[0], 7) == Some(1)
  {
    acts, s := UpdatesCross();
    UpdateArrives(s, 1, 2, [UP_ONE, UP_TWO], None);
    acts := Go(acts, s, At(2), HASTY, HEAR_TWO);
    s := Apply(Three(), s, HEAR_TWO);
    assert s.net == [UP_ONE];
    UpdateArrives(s, 0, 1, [UP_ONE], Some(2));
    acts := Go(acts, s, At(2), HASTY, HEAR_ONE);
    s := Apply(Three(), s, HEAR_ONE);
  }

  // ---------- a cache the home does not know of ----------

  const EXISTS_ASK := Packet(2, 0, ExistsRequest(7, 2))
  const EXISTS_YES := Packet(0, 2, ExistsResponse(7, true, 0))
  const ASK_EXISTS := EntityExists(2, 7, 100)
  const SAY_YES := Deliver(0, EXISTS_ASK, [])
  const HEAR_YES := Deliver(0, EXISTS_YES, [])

  lemma AsksExists(s: System)
    requires Quiet(s, [], Some(0)) && Unaware(s)
    ensures Enabled(Three(), s, ASK_EXISTS) && Quiet(Apply(Three(), s, ASK_EXISTS), [EXISTS_ASK], Some(0))
    ensures Apply(Three(), s, ASK_EXISTS).ranks[2].recs == s.ranks[2].recs
  {
    assert Apply(Three(), s, ASK_EXISTS).net == [EXISTS_ASK];
  }

  lemma SaysYes(s: System)
    requires Quiet(s, [EXISTS_ASK], Some(0))
    ensures Enabled(Three(), s, SAY_YES) && Quiet(Apply(Three(), s, SAY_YES), [EXISTS_YES], Some(0))
    ensures Apply(Three(), s, SAY_YES).ranks[2] == s.ranks[2]
  {
    assert Apply(Three(), s, SAY_YES).net == [EXISTS_YES];
  }

  lemma HearsYes(s: System)
    requires Quiet(s, [EXISTS_YES], Some(0)) && s.ranks[2].recs == Table(map[], [], 4)
    ensures Enabled(Three(), s, HEAR_YES)
    ensures Quiet(Apply(Three(), s, HEAR_YES), [], Some(0)) && Cached(Apply(Three(), s, HEAR_YES))
  {
    assert Apply(Three(), s, HEAR_YES).net == [];
  }

  lemma LeavesCached(s: System)
    requires Quiet(s, [], Some(0)) && Cached(s)
    ensures Enabled(Three(), s, LEAVE)
    ensures Quiet(Apply(Three(), s, LEAVE), [], Some(1)) && Cached(Apply(Three(), s, LEAVE))
  {
    assert Apply(Three(), s, LEAVE).net == [];
  }

  /** Rank 2 asks whether entity 7, living at home, exists, and the home looks it up. */
  lemma ExistenceAnswered() returns (acts: seq<Action>, s: System)
    ensures Reached(acts, s, At(0), ALL) && Quiet(s, [EXISTS_YES], Some(0))
    ensures s.ranks[2].recs == Table(map[], [], 4)
  {
    acts, s := BornAtHome(ALL);
    AsksExists(s);
    acts := Go(acts, s, At(0), ALL, ASK_EXISTS);
    s := Apply(Three(), s, ASK_EXISTS);
    SaysYes(s);
    acts := Go(acts, s, At(0), ALL, SAY_YES);
    s := Apply(Three(), s, SAY_YES);
  }

  /** Rank 2 files the answer, and the entity sets out for rank 1. */
  lemma ExistenceCached() returns (acts: seq<Action>, s: System)
    ensures Reached(acts, s, MovingTo(1), ALL) && Quiet(s, [], Some(1)) && Cached(s)
  {
    acts, s := ExistenceAnswered();
    HearsYes(s);
    acts := Go(acts, s, At(0), ALL, HEAR_YES);
    s := Apply(Three(), s, HEAR_YES);
    LeavesCached(s);
    acts := Go(acts, s, At(0), ALL, LEAVE);
    s := Apply(Three(), s, LEAVE);
  }

  /** All rules are kept: nothing is in flight, the home and the host agree on rank 1,
      and yet a cache says 0, because an existence answer fills the cache without
      asking for refreshes. */
  lemma StaleAfterExistenceQuery() returns (acts: seq<Action>, s: System)
    ensures Reached(acts, s, At(1), ALL) && s.net == [] && |s.ranks| == 3
    ensures OnFile(s.ranks[0], 7) == Some(1)
    ensures Cached(s) && 2 !in Askers(s.ranks[0], 7)
  {
    acts, s := ExistenceCached();
    RegistersAway(s, 1, [], Some(1));
    acts := Go(acts, s, MovingTo(1), ALL, COME_ONE);
    s := Apply(Three(), s, COME_ONE);
    UpdateArrives(s, 0, 1, [UP_ONE], Some(1));
    acts := Go(acts, s, At(1), ALL, HEAR_ONE);
    s := Apply(Three(), s, HEAR_ONE);
  }

  // ---------- removals the home does not hear of, or should not have made ----------

  const DROP_AWAY := Unregister(1, 7)
  const DROP_HOME := Unregister(0, 7)

  lemma DropsAway(s: System, net: seq<Packet>, node: Option<NodeType>)
    requires Quiet(s, net, node)
    ensures Enabled(Three(), s, DROP_AWAY) && Quiet(Apply(Three(), s, DROP_AWAY), net, node)
  {
    assert Apply(Three(), s, DROP_AWAY).net == net;
  }

  lemma DropsAtHome(s: System, net: seq<Packet>, node: Option<NodeType>)
    requires Quiet(s, net, node)
    ensures Enabled(Three(), s, DROP_HOME) && Quiet(Apply(Three(), s, DROP_HOME), net, None)
  {
    assert Apply(Three(), s, DROP_HOME).net == net;
  }

  lemma ComesHome(s: System, net: seq<Packet>, node: Option<NodeType>)
    requires Quiet(s, net, node)
    ensures Enabled(Three(), s, FIRST) && Quiet(Apply(Three(), s, FIRST), net, Some(0))
  {
    assert Apply(Three(), s, FIRST).net == net;
  }

  /** All rules are kept and nothing is in flight: the entity was removed where it
      lived, and the home still says that it exists. */
  lemma HomeRemembersRemoved() returns (acts: seq<Action>, s: System)
    ensures Reached(acts, s, Nowhere, ALL) && s.net == [] && |s.ranks| == 3
    ensures acts == [COME_ONE, HEAR_ONE, DROP_AWAY] && RemovedAway(Three(), acts, 7)
    ensures OnFile(s.ranks[0], 7) == Some(1)
  {
    acts, s := BornAway(ALL);
    UpdateArrives(s, 0, 1, [UP_ONE], None);
    acts := Go(acts, s, At(1), ALL, HEAR_ONE);
    s := Apply(Three(), s, HEAR_ONE);
    DropsAway(s, [], Some(1));
    acts := Go(acts, s, At(1), ALL, DROP_AWAY);
    s := Apply(Three(), s, DROP_AWAY);
  }

  /** The home removes an entity that is not there while the update about it is still
      in flight: afterwards the home says that it exists, though it is not remembered. */
  lemma UnhostedRemoval() returns (acts: seq<Action>, s: System)
    ensures Reached(acts, s, Nowhere, Rules(true, true, false)) && s.net == [] && |s.ranks| == 3
    ensures !Remembered(Three(), acts, 7) && OnFile(s.ranks[0], 7) == Some(1)
  {
    var rules := Rules(true, true, false);
    acts, s := BornAway(rules);
    DropsAtHome(s, [UP_ONE], None);
    acts := Go(acts, s, At(1), rules, DROP_HOME);
    s := Apply(Three(), s, DROP_HOME);
    UpdateArrives(s, 0, 1, [UP_ONE], None);
    assert !Remembered(Three(), acts, 7) by { assert acts[..|acts| - 1] == [COME_ONE]; }
    ghost var sofar := acts;
    acts := Go(acts, s, Nowhere, rules, HEAR_ONE);
    assert acts[..|acts| - 1] == sofar;
    s := Apply(Three(), s, HEAR_ONE);
  }

  lemma HomeInHaste() returns (acts: seq<Action>, s: System)
    ensures Reached(acts, s, Nowhere, HASTY) && Quiet(s, [UP_ONE], None) && !Remembered(Three(), acts, 7)
  {
    acts, s := BornAway(HASTY);
    ComesHome(s, [UP_ONE], None);
    acts := Go(acts, s, At(1), HASTY, FIRST);
    s := Apply(Three(), s, FIRST);
    DropsAtHome(s, [UP_ONE], Some(0));
    ghost var sofar := acts;
    acts := Go(acts, s, At(0), HASTY, DROP_HOME);
    assert acts[..|acts| - 1] == sofar;
    s := Apply(Three(), s, DROP_HOME);
  }

  /** The same without patience: the entity comes home and is removed there by its host
      before the update from its former host arrives. */
  lemma ImpatientRemoval() returns (acts: seq<Action>, s: System)
    ensures Reached(acts, s, Nowhere, HASTY) && s.net == [] && |s.ranks| == 3
    ensures !Remembered(Three(), acts, 7) && OnFile(s.ranks[0], 7) == Some(1)
  {
    acts, s := HomeInHaste();
    UpdateArrives(s, 0, 1, [UP_ONE], None);
    ghost var sofar := acts;
    acts := Go(acts, s, Nowhere, HASTY, HEAR_ONE);
    assert acts[..|acts| - 1] == sofar;
    s := Apply(Three(), s, HEAR_ONE);
  }
}
