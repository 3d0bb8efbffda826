/** What every rank satisfies in every run, whatever is delivered in whatever order:
    the directory and the home-side tables live at the home only, a directory entry
    excludes waiting requesters and waiters, and records are classified correctly. */
module RankInvariant {
  import opened Records
  import opened Recency
  import opened LookupTable
  import opened RankModel
  import opened Protocol

  /** Where packets of each kind may travel. */
  predicate Addressed(c: Config, p: Packet) {
    match p.msg
    case UpdateHome(id, node) => p.dst == c.home(id) && node == p.src && c.Away(id, p.src)
    case LocationRequest(id, requester) => p.dst == c.home(id) && requester == p.src && c.Away(id, p.src)
    case ResolveResponse(id, _) => p.src == c.home(id) && c.Away(id, p.dst)
    case ExistsRequest(id, requester) => p.dst == c.home(id) && requester == p.src && c.Away(id, p.src)
    case ExistsResponse(id, _, _) => p.src == c.home(id) && c.Away(id, p.dst)
  }

  ghost predicate AllAddressed(c: Config, ps: seq<Packet>) {
    forall p :: p in ps ==> Addressed(c, p)
  }

  /** Directory entries exist only at the home and exclude anyone still waiting there. */
  ghost predicate DirectoryInv(c: Config, k: RankState) {
    forall id :: id in k.recs.dir ==> c.home(id) == k.me && id !in k.pendingHome && id !in k.pending
  }

  /** An entity registered at its home is in the directory. */
  ghost predicate LocalInv(c: Config, k: RankState) {
    forall id :: id in k.local && c.home(id) == k.me ==> id in k.recs.dir
  }

  /** Only the home remembers requesters and askers, and never itself. */
  ghost predicate AwayInv(c: Config, k: RankState) {
    && (forall id :: id in k.pendingHome || id in k.locAsks ==> c.home(id) == k.me)
    && (forall id, r :: r in Buffered(k.pendingHome, id) ==> c.Away(id, r))
    && (forall id, r :: r in Askers(k, id) ==> c.Away(id, r))
  }

  /** A buffered list is never empty, and the home never buffers existence queries. */
  ghost predicate BufferInv(c: Config, k: RankState) {
    && (forall id :: id in k.pending ==> k.pending[id] != [])
    && (forall id :: id in k.pendingExists ==> k.pendingExists[id] != [] && c.home(id) != k.me)
  }

  /** Every stored record is filed under its own id and Local exactly when it points here. */
  ghost predicate RecordInv(k: RankState) {
    && (forall id :: id in k.recs.dir ==> k.recs.dir[id].ClassifiedFor(id, k.me))
    && (forall id :: Has(k.recs.cache, id) ==> Find(k.recs.cache, id).value.ClassifiedFor(id, k.me))
  }

  ghost predicate RankInv(c: Config, k: RankState) {
    && k.recs.Valid() && k.recs.cap == c.cap
    && DirectoryInv(c, k) && LocalInv(c, k) && AwayInv(c, k) && BufferInv(c, k) && RecordInv(k)
  }

  /** A step keeps the invariant, the rank, and the addressing discipline. */
  ghost predicate Keeps(c: Config, k: RankState, e: Effect) {
    RankInv(c, e.state) && e.state.me == k.me && AllAddressed(c, e.sends)
  }

  lemma AnnounceAddressed(c: Config, k: RankState, id: EntityID, node: NodeType, order: seq<NodeType>)
    requires AwayInv(c, k) && c.home(id) == k.me && Enumerates(order, Askers(k, id)) && 1 <= k.recs.cap
    ensures AllAddressed(c, Announce(k, id, node, order).sends)
  {
    var early := Buffered(k.pendingHome, id);
    forall x | x in order ensures c.Away(id, x) {
      assert x in multiset(order);
    }
    assert forall i :: 0 <= i < |order| ==> order[i] in order;
    assert forall i :: 0 <= i < |early| ==> early[i] in early;
  }

  lemma AnnounceKeeps(c: Config, k: RankState, id: EntityID, node: NodeType, order: seq<NodeType>)
    requires RankInv(c, k) && c.home(id) == k.me && Enumerates(order, Askers(k, id))
    ensures Keeps(c, k, Announce(k, id, node, order))
  {
    var e := Announce(k, id, node, order);
    AnnounceAddressed(c, k, id, node, order);
    forall r, x | r in Askers(e.state, x) ensures c.Away(x, r) {
      if x == id && id in k.pendingHome {
        assert r in Askers(k, id) || r in Buffered(k.pendingHome, id);
      } else {
        assert r in Askers(k, x);
      }
    }
    forall x, r | r in Buffered(e.state.pendingHome, x) ensures c.Away(x, r) {
      assert r in Buffered(k.pendingHome, x);
    }
  }

  lemma RegisterKeeps(c: Config, k: RankState, id: EntityID, order: seq<NodeType>)
    requires c.Valid() && c.IsRank(k.me) && RankInv(c, k)
    requires c.home(id) == k.me ==> Enumerates(order, Askers(k, id))
    ensures Keeps(c, k, RankModel.Register(k, id, c.home(id), order))
  {
    var k' := k.(local := k.local + {id});
    if c.home(id) == k.me {
      // The new local entity enters the directory in the same step.
      AnnounceKeeps(c, k, id, k.me, order);
      var e, f := Announce(k', id, k.me, order), Announce(k, id, k.me, order);
      assert e.state == f.state.(local := k'.local);
      assert forall x, r :: r in Askers(e.state, x) ==> r in Askers(f.state, x);
    } else {
      assert forall x, r :: r in Askers(k', x) ==> r in Askers(k, x);
    }
  }

  lemma EmigrateKeeps(c: Config, k: RankState, id: EntityID, newNode: NodeType)
    requires RankInv(c, k)
    ensures Keeps(c, k, RankModel.Emigrate(k, id, newNode))
  {
    UpdateThenRead(k.recs, id, MakeRec(id, newNode, k.me));
    RecordsKept(c, k, id, newNode);
    assert forall x, r :: r in Askers(RankModel.Emigrate(k, id, newNode).state, x) ==> r in Askers(k, x);
  }

  /** Overwriting one record leaves every record well classified. */
  lemma RecordsKept(c: Config, k: RankState, id: EntityID, node: NodeType)
    requires RankInv(c, k)
    ensures RecordInv(k.(recs := k.recs.Updated(id, MakeRec(id, node, k.me))))
    ensures k.recs.Updated(id, MakeRec(id, node, k.me)).Valid()
  {
    var rec := MakeRec(id, node, k.me);
    UpdateThenRead(k.recs, id, rec);
    var t := k.recs.Updated(id, rec);
    forall x | Has(t.cache, x) ensures Find(t.cache, x).value.ClassifiedFor(x, k.me) {
      if x == id && id !in k.recs.dir {
        assert t.Read(id) == Find(t.cache, id);
      } else if x != id {
        assert Find(t.cache, x) == Find(k.recs.cache, x);
      }
    }
  }

  lemma UnregisterKeeps(c: Config, k: RankState, id: EntityID)
    requires RankInv(c, k)
    ensures Keeps(c, k, RankModel.Unregister(k, id))
  {
    RemovedFromTable(k.recs, id);
    var e := RankModel.Unregister(k, id);
    forall x | Has(e.state.recs.cache, x) ensures Find(e.state.recs.cache, x).value.ClassifiedFor(x, k.me) {
      assert x != id;
      assert Find(e.state.recs.cache, x) == Find(k.recs.cache, x);
    }
    assert forall x, r :: r in Askers(e.state, x) ==> r in Askers(k, x);
  }

  lemma ReadKeeps(c: Config, k: RankState, id: EntityID)
    requires RankInv(c, k) && k.recs.Exists(id)
    ensures RankInv(c, k.(recs := k.recs.Gotten(id)))
    ensures Askers(k.(recs := k.recs.Gotten(id)), id) == Askers(k, id)
  {
    GottenFacts(k.recs, id);
    var k' := k.(recs := k.recs.Gotten(id));
    assert forall x :: Has(k'.recs.cache, x) ==> Find(k'.recs.cache, x) == Find(k.recs.cache, x);
    assert forall x, r :: r in Askers(k', x) ==> r in Askers(k, x);
  }

  lemma GetLocationKeeps(c: Config, k: RankState, id: EntityID, token: Token)
    requires c.Valid() && c.IsRank(k.me) && RankInv(c, k)
    ensures Keeps(c, k, RankModel.GetLocation(k, id, c.home(id), token))
  {
    if id !in k.local {
      if k.recs.Exists(id) {
        ReadKeeps(c, k, id);
      } else {
        var e := RankModel.GetLocation(k, id, c.home(id), token);
        assert forall x, r :: r in Askers(e.state, x) ==> r in Askers(k, x);
      }
    }
  }

  lemma EntityExistsKeeps(c: Config, k: RankState, id: EntityID, token: Token)
    requires c.Valid() && c.IsRank(k.me) && RankInv(c, k)
    ensures Keeps(c, k, RankModel.EntityExists(k, id, c.home(id), token))
  {
    if id !in k.local {
      if k.recs.Exists(id) {
        ReadKeeps(c, k, id);
      } else {
        var e := RankModel.EntityExists(k, id, c.home(id), token);
        assert forall x, r :: r in Askers(e.state, x) ==> r in Askers(k, x);
      }
    }
  }

  lemma ClearKeeps(c: Config, k: RankState)
    requires RankInv(c, k)
    ensures Keeps(c, k, RankModel.ClearCache(k))
  {
    var e := RankModel.ClearCache(k);
    assert forall x, r :: r in Askers(e.state, x) ==> r in Askers(k, x);
  }

  lemma LocationRequestKeeps(c: Config, k: RankState, id: EntityID, requester: NodeType)
    requires RankInv(c, k) && c.home(id) == k.me && c.Away(id, requester)
    ensures Keeps(c, k, OnLocationRequest(k, id, requester))
  {
    var e := OnLocationRequest(k, id, requester);
    if k.recs.Exists(id) { ReadKeeps(c, k, id); }
    forall x, r | r in Askers(e.state, x) ensures c.Away(x, r) {
      assert r in Askers(k, x) || (x == id && r == requester);
    }
    forall x, r | r in Buffered(e.state.pendingHome, x) ensures c.Away(x, r) {
      assert r in Buffered(k.pendingHome, x) || (x == id && r == requester);
    }
  }

  lemma ResolveResponseKeeps(c: Config, k: RankState, id: EntityID, node: NodeType)
    requires RankInv(c, k) && c.home(id) != k.me
    ensures Keeps(c, k, OnResolveResponse(k, id, node))
  {
    RecordsKept(c, k, id, node);
    var e := OnResolveResponse(k, id, node);
    assert forall x, r :: r in Askers(e.state, x) ==> r in Askers(k, x);
  }

  lemma ExistsRequestKeeps(c: Config, k: RankState, id: EntityID, requester: NodeType)
    requires RankInv(c, k) && c.home(id) == k.me && c.Away(id, requester)
    ensures Keeps(c, k, OnExistsRequest(k, id, requester))
  {
    if k.recs.Exists(id) { ReadKeeps(c, k, id); }
  }

  lemma ExistsResponseKeeps(c: Config, k: RankState, id: EntityID, found: bool, node: NodeType)
    requires RankInv(c, k) && c.home(id) != k.me
    ensures Keeps(c, k, OnExistsResponse(k, id, found, node))
  {
    if found { RecordsKept(c, k, id, node); }
    var e := OnExistsResponse(k, id, found, node);
    assert forall x, r :: r in Askers(e.state, x) ==> r in Askers(k, x);
  }

  // ---------- the system ----------

  ghost predicate SystemInv(c: Config, s: System) {
    && |s.ranks| == c.n
    && (forall r :: 0 <= r < c.n ==> s.ranks[r].me == r && RankInv(c, s.ranks[r]))
    && AllAddressed(c, s.net)
  }

  lemma ActsKeeps(c: Config, s: System, a: Action)
    requires c.Valid() && SystemInv(c, s) && Enabled(c, s, a)
    ensures Keeps(c, s.ranks[a.Actor()], Acts(c, s.ranks[a.Actor()], a))
  {
    var k := s.ranks[a.Actor()];
    match a
    case Register(_, id, order) => RegisterKeeps(c, k, id, order);
    case Emigrate(_, id, newNode) => EmigrateKeeps(c, k, id, newNode);
    case Unregister(_, id) => UnregisterKeeps(c, k, id);
    case GetLocation(_, id, token) => GetLocationKeeps(c, k, id, token);
    case EntityExists(_, id, token) => EntityExistsKeeps(c, k, id, token);
    case ClearCache(_) => ClearKeeps(c, k);
    case Deliver(_, packet, order) =>
      assert Addressed(c, packet);
      match packet.msg
      case UpdateHome(id, node) => AnnounceKeeps(c, k, id, node, order);
      case LocationRequest(id, requester) => LocationRequestKeeps(c, k, id, requester);
      case ResolveResponse(id, node) => ResolveResponseKeeps(c, k, id, node);
      case ExistsRequest(id, requester) => ExistsRequestKeeps(c, k, id, requester);
      case ExistsResponse(id, found, node) => ExistsResponseKeeps(c, k, id, found, node);
  }

  lemma SystemInvStep(c: Config, s: System, a: Action)
    requires c.Valid() && SystemInv(c, s) && Enabled(c, s, a)
    ensures SystemInv(c, Apply(c, s, a))
  {
    ActsKeeps(c, s, a);
    NetStep(c, s, a);
  }

  /** Layer separation, in every state of every run. */
  lemma {:induction false} SystemInvAlways(c: Config, acts: seq<Action>)
    requires c.Valid() && Run(c, acts).Some?
    ensures SystemInv(c, Run(c, acts).value)
  {
    if acts != [] {
      var before, a := acts[..|acts| - 1], acts[|acts| - 1];
      SystemInvAlways(c, before);
      SystemInvStep(c, Run(c, before).value, a);
    }
  }
}
