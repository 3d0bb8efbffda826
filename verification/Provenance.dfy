/** Where locations come from: every node stored, sent or handed to a callback is one
    that registered the entity or was named as the target of its emigration. */
module Provenance {
  import opened Records
  import opened Recency
  import opened LookupTable
  import opened RankModel
  import opened Protocol
  import opened RankInvariant
  import opened Subscriptions

  /** The action puts `node` forward as a host of `id`. */
  predicate Names(a: Action, id: EntityID, node: NodeType) {
    || (a.Register? && a.id == id && a.rank == node)
    || (a.Emigrate? && a.id == id && a.newNode == node)
  }

  /** Some call of the run put `node` forward. */
  ghost predicate Named(acts: seq<Action>, id: EntityID, node: NodeType) {
    exists i :: 0 <= i < |acts| && Names(acts[i], id, node)
  }

  /** A message or an answer mentions named nodes only; a negative one says NO_NODE. */
  ghost predicate TracedMsg(acts: seq<Action>, m: Msg) {
    match m
    case UpdateHome(id, node) => Named(acts, id, node)
    case ResolveResponse(id, node) => Named(acts, id, node)
    case ExistsResponse(id, found, node) => if found then Named(acts, id, node) else node == NO_NODE
    case _ => true
  }

  ghost predicate TracedFiring(acts: seq<Action>, f: Firing) {
    match f.answer
    case Location(node) => Named(acts, f.id, node)
    case Existence(found, node) => if found then Named(acts, f.id, node) else node == NO_NODE
  }

  ghost predicate TracedRank(acts: seq<Action>, k: RankState) {
    && (forall id :: id in k.local ==> Named(acts, id, k.me))
    && (forall id :: id in k.recs.dir ==> Named(acts, id, k.recs.dir[id].curNode))
    && (forall id :: Has(k.recs.cache, id) ==> Named(acts, id, Find(k.recs.cache, id).value.curNode))
  }

  ghost predicate TracedEffect(acts: seq<Action>, e: Effect) {
    && TracedRank(acts, e.state)
    && (forall p :: p in e.sends ==> TracedMsg(acts, p.msg))
    && (forall f :: f in e.fires ==> TracedFiring(acts, f))
  }

  // ---------- naming only grows ----------

  lemma NamedGrows(acts: seq<Action>, a: Action, id: EntityID, node: NodeType)
    ensures Named(acts + [a], id, node) <==> Named(acts, id, node) || Names(a, id, node)
  {
    var acts' := acts + [a];
    if Named(acts, id, node) {
      var i :| 0 <= i < |acts| && Names(acts[i], id, node);
      assert acts'[i] == acts[i];
    }
    if Names(a, id, node) { assert acts'[|acts|] == a; }
    if Named(acts', id, node) {
      var i :| 0 <= i < |acts'| && Names(acts'[i], id, node);
      assert i < |acts| ==> acts'[i] == acts[i];
    }
  }

  // ---------- the building blocks of every handler ----------

  lemma TracedUpdate(acts: seq<Action>, k: RankState, id: EntityID, node: NodeType)
    requires TracedRank(acts, k) && k.recs.Valid() && Named(acts, id, node)
    ensures TracedRank(acts, k.(recs := k.recs.Updated(id, MakeRec(id, node, k.me))))
  {
    var rec := MakeRec(id, node, k.me);
    UpdateThenRead(k.recs, id, rec);
    var t := k.recs.Updated(id, rec);
    forall x | Has(t.cache, x) ensures Named(acts, x, Find(t.cache, x).value.curNode) {
      if x != id { assert Find(t.cache, x) == Find(k.recs.cache, x); }
      else if id !in k.recs.dir { assert t.Read(id) == Find(t.cache, id); }
    }
  }

  lemma TracedGet(acts: seq<Action>, k: RankState, id: EntityID)
    requires TracedRank(acts, k) && k.recs.Valid() && k.recs.Exists(id)
    ensures TracedRank(acts, k.(recs := k.recs.Gotten(id))) && Named(acts, id, KnownNode(k, id))
  {
    GottenFacts(k.recs, id);
    var t := k.recs.Gotten(id);
    assert forall x :: Has(t.cache, x) ==> Find(t.cache, x) == Find(k.recs.cache, x);
  }

  lemma TracedRemove(acts: seq<Action>, k: RankState, id: EntityID)
    requires TracedRank(acts, k) && k.recs.Valid()
    ensures TracedRank(acts, RankModel.Unregister(k, id).state)
  {
    RemovedFromTable(k.recs, id);
    var t := k.recs.Removed(id);
    forall x | Has(t.cache, x) ensures Named(acts, x, Find(t.cache, x).value.curNode) {
      assert x != id && Find(t.cache, x) == Find(k.recs.cache, x);
    }
  }

  lemma TracedAnnounce(acts: seq<Action>, k: RankState, id: EntityID, node: NodeType, order: seq<NodeType>)
    requires TracedRank(acts, k) && 1 <= k.recs.cap && Named(acts, id, node)
    ensures TracedEffect(acts, Announce(k, id, node, order))
  {
    AnnounceSends(k, id, node, order);
  }

  // ---------- one step ----------

  lemma CallTraced(c: Config, acts: seq<Action>, k: RankState, a: Action)
    requires TracedRank(acts, k) && k.recs.Valid() && k.me == a.Actor() && !a.Deliver?
    requires forall id, node :: Names(a, id, node) ==> Named(acts, id, node)
    ensures TracedEffect(acts, Acts(c, k, a))
  {
    match a
    case Register(rank, id, order) =>
      assert Names(a, id, rank);
      if c.home(id) == k.me { TracedAnnounce(acts, k.(local := k.local + {id}), id, k.me, order); }
    case Emigrate(_, id, newNode) =>
      assert Names(a, id, newNode);
      TracedUpdate(acts, k, id, newNode);
    case Unregister(_, id) => TracedRemove(acts, k, id);
    case GetLocation(_, id, _) => if id !in k.local && k.recs.Exists(id) { TracedGet(acts, k, id); }
    case EntityExists(_, id, _) => if id !in k.local && k.recs.Exists(id) { TracedGet(acts, k, id); }
    case ClearCache(_) =>
  }

  lemma DeliveryTraced(c: Config, acts: seq<Action>, k: RankState, p: Packet, order: seq<NodeType>)
    requires TracedRank(acts, k) && k.recs.Valid() && k.me == p.dst && TracedMsg(acts, p.msg)
    ensures TracedEffect(acts, Handle(k, p.msg, order))
  {
    match p.msg
    case UpdateHome(id, node) => TracedAnnounce(acts, k, id, node, order);
    case LocationRequest(id, _) => if k.recs.Exists(id) { TracedGet(acts, k, id); }
    case ResolveResponse(id, node) => TracedUpdate(acts, k, id, node);
    case ExistsRequest(id, _) => if k.recs.Exists(id) { TracedGet(acts, k, id); }
    case ExistsResponse(id, found, node) => if found { TracedUpdate(acts, k, id, node); }
  }

  // ---------- every run ----------

  ghost predicate Traced(acts: seq<Action>, s: System) {
    && (forall r :: 0 <= r < |s.ranks| ==> TracedRank(acts, s.ranks[r]))
    && (forall p :: p in s.sent ==> TracedMsg(acts, p.msg))
    && (forall f :: f in s.fired ==> TracedFiring(acts, f))
    && (forall p :: p in s.net ==> p in s.sent)
  }

  lemma TracedStep(c: Config, acts: seq<Action>, s: System, a: Action)
    requires c.Valid() && SystemInv(c, s) && Enabled(c, s, a) && Traced(acts, s)
    ensures Traced(acts + [a], Apply(c, s, a))
  {
    var acts', k := acts + [a], s.ranks[a.Actor()];
    forall id, node ensures Named(acts', id, node) <==> Named(acts, id, node) || Names(a, id, node) {
      NamedGrows(acts, a, id, node);
    }
    assert forall r :: 0 <= r < |s.ranks| ==> TracedRank(acts', s.ranks[r]);
    assert forall p :: p in s.sent ==> TracedMsg(acts', p.msg);
    assert forall f :: f in s.fired ==> TracedFiring(acts', f);
    if a.Deliver? { DeliveryTraced(c, acts', k, a.packet, a.order); }
    else { CallTraced(c, acts', k, a); }
    NetStep(c, s, a);
  }

  /** Provenance, in every state of every run. */
  lemma {:induction false} TracedAlways(c: Config, acts: seq<Action>)
    requires c.Valid() && Run(c, acts).Some?
    ensures Traced(acts, Run(c, acts).value)
  {
    if acts != [] {
      var before, a := acts[..|acts| - 1], acts[|acts| - 1];
      TracedAlways(c, before);
      SystemInvAlways(c, before);
      TracedStep(c, before, Run(c, before).value, a);
      LastAction(acts);
    }
  }

  /** Only ranks are ever named, so nobody is ever sent to NO_NODE. */
  lemma {:induction false} NamedAreRanks(c: Config, acts: seq<Action>, id: EntityID, node: NodeType)
    requires Run(c, acts).Some? && Named(acts, id, node)
    ensures c.IsRank(node) && node != NO_NODE
  {
    var before, a := acts[..|acts| - 1], acts[|acts| - 1];
    assert acts == before + [a];
    NamedGrows(before, a, id, node);
    if !Names(a, id, node) { NamedAreRanks(c, before, id, node); }
  }

  /** Every location handed to a callback names a rank that really hosted the entity
      or was announced as its destination. */
  lemma LocationsAreReal(c: Config, acts: seq<Action>, f: Firing)
    requires c.Valid() && Run(c, acts).Some? && f in Run(c, acts).value.fired
    requires f.answer.Location? || f.answer.found
    ensures c.IsRank(f.answer.node) && Named(acts, f.id, f.answer.node)
  {
    TracedAlways(c, acts);
    assert TracedFiring(acts, f);
    NamedAreRanks(c, acts, f.id, f.answer.node);
  }
}
