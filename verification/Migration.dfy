/** How the calls of a run move an entity, and how careful the run is about it. */
module Migration {
  import opened Records
  import opened RankModel
  import opened Network
  import opened Protocol

  datatype Where = Nowhere | At(node: NodeType) | MovingTo(node: NodeType)

  /** Where the calls of the run have put `id`. */
  function WhereIs(acts: seq<Action>, id: EntityID): Where {
    if acts == [] then Nowhere
    else
      var earlier := WhereIs(acts[..|acts| - 1], id);
      match acts[|acts| - 1]
      case Register(r, x, _) => if x == id then At(r) else earlier
      case Emigrate(_, x, n) => if x == id then MovingTo(n) else earlier
      case Unregister(_, x) => if x == id then Nowhere else earlier
      case _ => earlier
  }

  predicate UpdateInFlight(net: seq<Packet>, id: EntityID) {
    Count(net, UpdatesOf(id)) != 0
  }

  /** The delivery takes the oldest packet of its channel. */
  ghost predicate Fifo(s: System, a: Action) {
    a.Deliver? ==> a.index < |s.net| && FirstOnChannel(s.net, a.index)
  }

  /** Nobody registers `id` while an update about it is in flight. */
  predicate Patient(s: System, a: Action, id: EntityID) {
    a.Register? && a.id == id ==> !UpdateInFlight(s.net, id)
  }

  /** Emigration and removal of `id` are reported by its current host. */
  predicate ByHost(acts: seq<Action>, a: Action, id: EntityID) {
    (a.Emigrate? || a.Unregister?) && a.id == id ==> WhereIs(acts, id) == At(a.rank)
  }

  ghost predicate FifoRun(c: Config, acts: seq<Action>) {
    acts == [] ||
    (var before := acts[..|acts| - 1];
     Run(c, before).Some? && FifoRun(c, before) && Fifo(Run(c, before).value, acts[|acts| - 1]))
  }

  ghost predicate PatientRun(c: Config, acts: seq<Action>, id: EntityID) {
    acts == [] ||
    (var before := acts[..|acts| - 1];
     Run(c, before).Some? && PatientRun(c, before, id) && Patient(Run(c, before).value, acts[|acts| - 1], id))
  }

  predicate HostedRun(acts: seq<Action>, id: EntityID) {
    acts == [] ||
    (var before := acts[..|acts| - 1];
     HostedRun(before, id) && ByHost(before, acts[|acts| - 1], id))
  }

  /** The last registration, emigration or removal of `id` reported on rank `r` itself is
      a registration. */
  predicate RegisteredAt(acts: seq<Action>, r: NodeType, id: EntityID) {
    if acts == [] then false
    else
      var a := acts[|acts| - 1];
      if a.Register? && a.rank == r && a.id == id then true
      else if (a.Emigrate? || a.Unregister?) && a.rank == r && a.id == id then false
      else RegisteredAt(acts[..|acts| - 1], r, id)
  }

  lemma LocalStep(c: Config, s: System, a: Action, r: NodeType, id: EntityID)
    requires Enabled(c, s, a) && 0 <= r < |s.ranks|
    ensures id in Apply(c, s, a).ranks[r].local <==>
      if a.Register? && a.rank == r && a.id == id then true
      else if (a.Emigrate? || a.Unregister?) && a.rank == r && a.id == id then false
      else id in s.ranks[r].local
  {
  }

  /** In every run a rank counts as its own exactly the entities that its own calls last
      registered. */
  lemma {:induction false} LocalFollowsRun(c: Config, acts: seq<Action>, s: System, r: NodeType, id: EntityID)
    requires Run(c, acts) == Some(s) && c.IsRank(r)
    ensures |s.ranks| == c.n && (id in s.ranks[r].local <==> RegisteredAt(acts, r, id))
  {
    if acts != [] {
      var before, a := acts[..|acts| - 1], acts[|acts| - 1];
      LocalFollowsRun(c, before, Run(c, before).value, r, id);
      LocalStep(c, Run(c, before).value, a, r, id);
    }
  }

  lemma {:induction false} HostIsRegistered(acts: seq<Action>, id: EntityID, r: NodeType)
    requires WhereIs(acts, id) == At(r)
    ensures RegisteredAt(acts, r, id)
  {
    var a := acts[|acts| - 1];
    if !(a.Register? && a.id == id) { HostIsRegistered(acts[..|acts| - 1], id, r); }
  }

  /** In every run the current host has the entity registered. */
  lemma HostHasRegistered(c: Config, acts: seq<Action>, s: System, id: EntityID, r: NodeType)
    requires Run(c, acts) == Some(s) && c.IsRank(r) && WhereIs(acts, id) == At(r)
    ensures |s.ranks| == c.n && id in s.ranks[r].local
  {
    HostIsRegistered(acts, id, r);
    LocalFollowsRun(c, acts, s, r, id);
  }
}
