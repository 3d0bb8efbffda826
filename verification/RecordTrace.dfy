/** A rank's records as a trace of lookup operations, and its cache as the LRU cache of
    that trace: what every call and handler reads, writes, promotes and clears. */
module RecordTrace {
  import opened Records
  import opened RankModel
  import opened Network
  import opened Protocol
  import opened Migration
  import opened RankInvariant
  import Recency
  import LT = LookupTable
  import LRU = LruTheory

  // ---------- the cache layer of a lookup is an LRU cache ----------

  /** What reaches the cache of a lookup that starts empty, since it was last cleared. */
  function CacheOps<K(==), V>(ops: seq<LT.Op<K, V>>): seq<LRU.Op<K, V>> {
    if ops == [] then []
    else
      var before := ops[..|ops| - 1];
      var earlier := CacheOps(before);
      match ops[|ops| - 1]
      case Store(k, atHome, v) => if atHome then earlier else earlier + [LRU.Insert(k, v)]
      case Update(k, v) => if LT.Recorded(None, before, k).Some? then earlier else earlier + [LRU.Insert(k, v)]
      case Remove(k) => earlier + [LRU.Remove(k)]
      case Get(k) => if LT.Recorded(None, before, k).Some? then earlier else earlier + [LRU.Get(k)]
      case Clear => []
  }

  lemma OneMore<K, V>(cap: nat, ops: seq<LRU.Op<K, V>>, op: LRU.Op<K, V>)
    requires 1 <= cap
    ensures LRU.After(cap, ops + [op]) == LRU.Step(LRU.After(cap, ops), cap, op)
  {
    LRU.AfterOneMore(cap, ops, op);
  }

  /** After any trace, evictions included, the cache layer is the LRU cache of exactly
      the operations that the directory did not absorb. */
  lemma {:induction false} CacheIsLru<K(!new), V>(cap: nat, ops: seq<LT.Op<K, V>>)
    requires 1 <= cap
    ensures LT.After(LT.Table(map[], [], cap), ops).cache == LRU.After(cap, CacheOps(ops))
  {
    if ops != [] {
      var before := ops[..|ops| - 1];
      var earlier := CacheOps(before);
      CacheIsLru(cap, before);
      match ops[|ops| - 1]
      case Store(k, atHome, v) => OneMore(cap, earlier, LRU.Insert(k, v));
      case Update(k, v) =>
        LT.DirectoryFollowsTrace(LT.Table(map[], [], cap), before, k);
        OneMore(cap, earlier, LRU.Insert(k, v));
      case Remove(k) => OneMore(cap, earlier, LRU.Remove(k));
      case Get(k) =>
        LT.DirectoryFollowsTrace(LT.Table(map[], [], cap), before, k);
        OneMore(cap, earlier, LRU.Get(k));
      case Clear =>
    }
  }

  // ---------- what a run does to the records of one rank ----------

  type RecordOp = LT.Op<EntityID, LocRecord>

  /** The lookup operations the handler of a message makes on rank `r`. */
  function HandlerOps(m: Msg, r: NodeType): seq<RecordOp> {
    match m
    case UpdateHome(id, node) => [LT.Store(id, true, MakeRec(id, node, r))]
    case LocationRequest(id, _) => [LT.Get(id)]
    case ResolveResponse(id, node) => [LT.Update(id, MakeRec(id, node, r))]
    case ExistsRequest(id, _) => [LT.Get(id)]
    case ExistsResponse(id, found, node) => if found then [LT.Update(id, MakeRec(id, node, r))] else []
  }

  /** The lookup operations one action makes on rank `r`, after the calls `acts`. A query
      about an entity registered on the rank itself does not look at its records. */
  function RecordOps(c: Config, acts: seq<Action>, a: Action, r: NodeType): seq<RecordOp> {
    if a.Actor() != r then []
    else
      match a
      case Register(_, id, _) => if c.home(id) == r then [LT.Store(id, true, MakeRec(id, r, r))] else []
      case Emigrate(_, id, n) => [LT.Update(id, MakeRec(id, n, r))]
      case Unregister(_, id) => [LT.Remove(id)]
      case GetLocation(_, id, _) => if RegisteredAt(acts, r, id) then [] else [LT.Get(id)]
      case EntityExists(_, id, _) => if RegisteredAt(acts, r, id) then [] else [LT.Get(id)]
      case ClearCache(_) => [LT.Clear]
      case Deliver(_, p, _) => HandlerOps(p.msg, r)
  }

  function Trace(c: Config, acts: seq<Action>, r: NodeType): seq<RecordOp> {
    if acts == [] then []
    else
      var before := acts[..|acts| - 1];
      Trace(c, before, r) + RecordOps(c, before, acts[|acts| - 1], r)
  }

  /** At most one operation at a time. */
  lemma AfterAtMostOne(t: LT.Table<EntityID, LocRecord>, ops: seq<RecordOp>, more: seq<RecordOp>)
    requires 1 <= t.cap && |more| <= 1
    ensures LT.After(t, ops + more) == if more == [] then LT.After(t, ops) else LT.Step(LT.After(t, ops), more[0])
  {
    if more == [] {
      assert ops + more == ops;
    } else {
      assert (ops + more)[..|ops|] == ops;
    }
  }

  /** The records of rank `r` go through exactly the operations of the action. */
  ghost predicate FollowsOps(c: Config, acts: seq<Action>, s: System, a: Action, r: NodeType)
    requires Enabled(c, s, a) && 0 <= r < |s.ranks|
  {
    var more := RecordOps(c, acts, a, r);
    && |more| <= 1 && 1 <= s.ranks[r].recs.cap
    && Apply(c, s, a).ranks[r].recs == if more == [] then s.ranks[r].recs else LT.Step(s.ranks[r].recs, more[0])
  }

  lemma CallFollowsOps(c: Config, acts: seq<Action>, s: System, a: Action, r: NodeType)
    requires c.Valid() && SystemInv(c, s) && Enabled(c, s, a) && c.IsRank(r) && !a.Deliver?
    requires a.Actor() == r ==> forall id :: id in s.ranks[r].local <==> RegisteredAt(acts, r, id)
    ensures FollowsOps(c, acts, s, a, r)
  {
  }

  lemma HandlerFollowsOps(k: RankState, m: Msg, order: seq<NodeType>)
    requires 1 <= k.recs.cap
    ensures
      var more := HandlerOps(m, k.me);
      |more| <= 1 && Handle(k, m, order).state.recs == if more == [] then k.recs else LT.Step(k.recs, more[0])
  {
  }

  lemma DeliveryFollowsOps(c: Config, acts: seq<Action>, s: System, a: Action, r: NodeType)
    requires c.Valid() && SystemInv(c, s) && Enabled(c, s, a) && c.IsRank(r) && a.Deliver?
    ensures FollowsOps(c, acts, s, a, r)
  {
    if a.Actor() == r { HandlerFollowsOps(s.ranks[r], a.packet.msg, a.order); }
  }

  /** In every run the records of a rank are what its trace of lookup operations leaves. */
  lemma {:induction false} RecordsFollowTrace(c: Config, acts: seq<Action>, s: System, r: NodeType)
    requires c.Valid() && Run(c, acts) == Some(s) && c.IsRank(r)
    ensures |s.ranks| == c.n
    ensures s.ranks[r].recs == LT.After(LT.Table(map[], [], c.cap), Trace(c, acts, r))
  {
    SystemInvAlways(c, acts);
    if acts != [] {
      var before, a := acts[..|acts| - 1], acts[|acts| - 1];
      var was := Run(c, before).value;
      RecordsFollowTrace(c, before, was, r);
      SystemInvAlways(c, before);
      forall id ensures id in was.ranks[r].local <==> RegisteredAt(before, r, id) {
        LocalFollowsRun(c, before, was, r, id);
      }
      if a.Deliver? { DeliveryFollowsOps(c, before, was, a, r); } else { CallFollowsOps(c, before, was, a, r); }
      AfterAtMostOne(LT.Table(map[], [], c.cap), Trace(c, before, r), RecordOps(c, before, a, r));
    }
  }

  /** So the cache of every rank, in every run, is the LRU cache of what it heard and
      looked up since it was last cleared. */
  lemma RankCacheIsLru(c: Config, acts: seq<Action>, s: System, r: NodeType)
    requires c.Valid() && Run(c, acts) == Some(s) && c.IsRank(r)
    ensures |s.ranks| == c.n && s.ranks[r].recs.cache == LRU.After(c.cap, CacheOps(Trace(c, acts, r)))
  {
    RecordsFollowTrace(c, acts, s, r);
    CacheIsLru(c.cap, Trace(c, acts, r));
  }
}
