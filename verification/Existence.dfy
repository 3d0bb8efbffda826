/** What the home says about existence, as a function of the calls of the run: exactly
    when it is right about an entity that was removed. */
module Existence {
  import opened Records
  import opened RankModel
  import opened Network
  import opened Protocol
  import opened Migration
  import opened RankInvariant
  import opened Convergence
  import opened HomeDirectory

  /** Registered at some time, and since then not removed by a call made at the home. */
  predicate Remembered(c: Config, acts: seq<Action>, id: EntityID) {
    if acts == [] then false
    else
      var earlier := Remembered(c, acts[..|acts| - 1], id);
      match acts[|acts| - 1]
      case Register(_, x, _) => x == id || earlier
      case Unregister(r, x) => !(x == id && r == c.home(id)) && earlier
      case _ => earlier
  }

  /** Removed away from home, and since then neither registered nor removed again. */
  predicate RemovedAway(c: Config, acts: seq<Action>, id: EntityID) {
    if acts == [] then false
    else
      var earlier := RemovedAway(c, acts[..|acts| - 1], id);
      match acts[|acts| - 1]
      case Register(_, x, _) => x != id && earlier
      case Unregister(r, x) => if x == id then r != c.home(id) else earlier
      case _ => earlier
  }

  // ---------- on file, or about to be ----------

  ghost predicate Tracked(c: Config, s: System, acts: seq<Action>, id: EntityID)
    requires c.Valid() && |s.ranks| == c.n
  {
    && (Remembered(c, acts, id) <==> OnFile(s.ranks[c.home(id)], id).Some? || UpdateInFlight(s.net, id))
    && (WhereIs(acts, id) == At(c.home(id)) ==> !UpdateInFlight(s.net, id))
  }

  /** What one step does to the updates in flight about `id`. */
  lemma FlightStep(c: Config, s: System, a: Action, id: EntityID)
    requires c.Valid() && SystemInv(c, s) && Enabled(c, s, a)
    ensures
      var net' := Apply(c, s, a).net;
      && (a.Register? && a.id == id && a.rank != c.home(id) ==> UpdateInFlight(net', id))
      && (!(a.Register? && a.id == id && a.rank != c.home(id)) && UpdateInFlight(net', id) ==> UpdateInFlight(s.net, id))
      && (UpdateInFlight(s.net, id) && !(a.Deliver? && Announces(c, a, id)) ==> UpdateInFlight(net', id))
      && (a.Deliver? && Announces(c, a, id) ==> UpdateInFlight(s.net, id))
  {
    UpdateTraffic(c, s, a, id);
    UpdateCount(c, s, a, id);
    CountNone(s.net, UpdatesOf(id));
    if a.Deliver? { assert a.packet in s.net; }
  }

  /** What one call does to what is remembered and to where the entity is. */
  lemma CallsStep(c: Config, acts: seq<Action>, a: Action, id: EntityID)
    ensures Remembered(c, acts + [a], id) <==>
      if a.Register? && a.id == id then true
      else if a.Unregister? && a.id == id && a.rank == c.home(id) then false
      else Remembered(c, acts, id)
    ensures WhereIs(acts + [a], id) ==
      if a.Register? && a.id == id then At(a.rank)
      else if a.Emigrate? && a.id == id then MovingTo(a.newNode)
      else if a.Unregister? && a.id == id then Nowhere
      else WhereIs(acts, id)
  {
    var acts' := acts + [a];
    assert acts'[..|acts'| - 1] == acts;
  }

  lemma TrackedStep(c: Config, s: System, acts: seq<Action>, a: Action, id: EntityID)
    requires c.Valid() && SystemInv(c, s) && Enabled(c, s, a) && Tracked(c, s, acts, id)
    requires Patient(s, a, id) && ByHost(acts, a, id)
    ensures |Apply(c, s, a).ranks| == c.n && Tracked(c, Apply(c, s, a), acts + [a], id)
  {
    CallsStep(c, acts, a, id);
    FileFollowsStep(c, s, a, id);
    FlightStep(c, s, a, id);
  }

  /** In patient, hosted runs the home has an entity on file, or an update about it is
      on its way, exactly when it is remembered. */
  lemma {:induction false} RememberedExactly(c: Config, acts: seq<Action>, s: System, id: EntityID)
    requires c.Valid() && Run(c, acts) == Some(s) && PatientRun(c, acts, id) && HostedRun(acts, id)
    ensures |s.ranks| == c.n && Tracked(c, s, acts, id)
  {
    SystemInvAlways(c, acts);
    if acts != [] {
      var before, a := acts[..|acts| - 1], acts[|acts| - 1];
      RememberedExactly(c, before, Run(c, before).value, id);
      SystemInvAlways(c, before);
      TrackedStep(c, Run(c, before).value, before, a, id);
      LastAction(acts);
    }
  }

  // ---------- right or wrong ----------

  /** In hosted runs an entity is remembered because it lives somewhere or because it
      was removed away from home, never both. */
  lemma {:induction false} RememberedWhy(c: Config, acts: seq<Action>, id: EntityID)
    requires HostedRun(acts, id)
    ensures Remembered(c, acts, id) <==> WhereIs(acts, id) != Nowhere || RemovedAway(c, acts, id)
    ensures !(WhereIs(acts, id) != Nowhere && RemovedAway(c, acts, id))
  {
    if acts != [] {
      RememberedWhy(c, acts[..|acts| - 1], id);
    }
  }

  /** Hosted runs are honest. */
  lemma {:induction false} HostedIsReported(c: Config, acts: seq<Action>, id: EntityID)
    requires Run(c, acts).Some? && HostedRun(acts, id)
    ensures ReportedByHosts(c, acts, id)
  {
    if acts != [] {
      var before, a := acts[..|acts| - 1], acts[|acts| - 1];
      HostedIsReported(c, before, id);
      if a.Emigrate? && a.id == id { HostHasRegistered(c, before, Run(c, before).value, id, a.rank); }
    }
  }

  /** Once no update about `id` is in flight, the home's verdict is whether `id` is
      remembered, and it is wrong exactly when `id` was removed away from home. Only
      the calls about `id` itself need to be patient and reported by its host. */
  lemma VerdictExactly(c: Config, acts: seq<Action>, s: System, id: EntityID, requester: NodeType)
    requires c.Valid() && Run(c, acts) == Some(s)
    requires PatientRun(c, acts, id) && HostedRun(acts, id) && !UpdateInFlight(s.net, id)
    ensures |s.ranks| == c.n
    ensures
      var sends := OnExistsRequest(s.ranks[c.home(id)], id, requester).sends;
      && |sends| == 1 && sends[0].msg.ExistsResponse?
      && (sends[0].msg.found <==> Remembered(c, acts, id))
      && ((sends[0].msg.found <==> WhereIs(acts, id) != Nowhere) <==> !RemovedAway(c, acts, id))
  {
    RememberedExactly(c, acts, s, id);
    RememberedWhy(c, acts, id);
    DirectoryFollowsRun(c, acts, id);
    HostedIsReported(c, acts, id);
    HostsAreHonest(c, acts, id);
    HomeVerdict(c, acts, id, requester);
  }
}
