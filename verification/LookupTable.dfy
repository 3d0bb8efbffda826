/** The combined lookup as a value: a permanent directory over an LRU cache. */
module LookupTable {
  import opened Records
  import opened Recency

  datatype Table<!K(==), V> = Table(dir: map<K, V>, cache: seq<(K, V)>, cap: nat) {

    predicate Valid() {
      WellFormed(cache, cap) && 1 <= cap
    }

    /** What a read of `k` would answer; the directory takes precedence. */
    function Read(k: K): Option<V> {
      if k in dir then Some(dir[k]) else Find(cache, k)
    }

    predicate Exists(k: K) {
      k in dir || Has(cache, k)
    }

    /** The table after `get(k)`: a cache hit is promoted. */
    function Gotten(k: K): Table<K, V>
      requires Exists(k)
    {
      if k in dir then this else this.(cache := Touched(cache, k))
    }

    function Removed(k: K): Table<K, V> {
      this.(dir := dir - {k}, cache := Without(cache, k))
    }

    /** `insert` on the rank that is (`atHome`) or is not the key's home. */
    function Stored(k: K, atHome: bool, v: V): Table<K, V>
      requires 1 <= cap
    {
      if atHome then this.(dir := dir[k := v])
      else this.(cache := Inserted(cache, cap, k, v))
    }

    function Updated(k: K, v: V): Table<K, V>
      requires 1 <= cap
    {
      if k in dir then this.(dir := dir[k := v])
      else this.(cache := Inserted(cache, cap, k, v))
    }

    function Cleared(): Table<K, V> {
      this.(cache := [])
    }
  }

  // ---------- one operation ----------

  lemma GottenFacts<K(!new), V>(t: Table<K, V>, k: K)
    requires t.Valid() && t.Exists(k)
    ensures t.Gotten(k).Valid() && t.Gotten(k).cap == t.cap && t.Gotten(k).dir == t.dir
    ensures forall o :: Find(t.Gotten(k).cache, o) == Find(t.cache, o)
  {
    if k !in t.dir { TouchedFacts(t.cache, t.cap, k); }
  }

  lemma RemovedFromTable<K(!new), V>(t: Table<K, V>, k: K)
    requires t.Valid()
    ensures t.Removed(k).Valid() && !t.Removed(k).Exists(k)
    ensures forall o :: o != k ==> Find(t.Removed(k).cache, o) == Find(t.cache, o)
  {
    RemovedFacts(t.cache, t.cap, k);
  }

  /** Whatever the state, an update is what the next read answers; other cached
      keys keep their value or are evicted. */
  lemma UpdateThenRead<K(!new), V>(t: Table<K, V>, k: K, v: V)
    requires t.Valid()
    ensures t.Updated(k, v).Valid() && t.Updated(k, v).Read(k) == Some(v)
    ensures t.Updated(k, v).dir.Keys == t.dir.Keys
    ensures forall o :: o != k ==>
      Find(t.Updated(k, v).cache, o) == Find(t.cache, o) || Find(t.Updated(k, v).cache, o).None?
  {
    if k !in t.dir { InsertedFacts(t.cache, t.cap, k, v); }
  }

  // ---------- traces ----------

  datatype Op<K, V> =
    | Store(key: K, atHome: bool, value: V)
    | Update(key: K, value: V)
    | Remove(key: K)
    | Get(key: K)  // guarded by exists
    | Clear

  function Step<K(==), V>(t: Table<K, V>, op: Op<K, V>): Table<K, V>
    requires 1 <= t.cap
  {
    match op
    case Store(k, atHome, v) => t.Stored(k, atHome, v)
    case Update(k, v) => t.Updated(k, v)
    case Remove(k) => t.Removed(k)
    case Get(k) => if t.Exists(k) then t.Gotten(k) else t
    case Clear => t.Cleared()
  }

  function After<K(==), V>(t: Table<K, V>, ops: seq<Op<K, V>>): (r: Table<K, V>)
    requires 1 <= t.cap
    ensures r.cap == t.cap
  {
    if ops == [] then t else Step(After(t, ops[..|ops| - 1]), ops[|ops| - 1])
  }

  lemma {:induction false} AfterValid<K(!new), V>(t: Table<K, V>, ops: seq<Op<K, V>>)
    requires t.Valid()
    ensures After(t, ops).Valid()
  {
    if ops != [] {
      var u, op := After(t, ops[..|ops| - 1]), ops[|ops| - 1];
      AfterValid(t, ops[..|ops| - 1]);
      match op
      case Store(k, atHome, v) => if !atHome { InsertedFacts(u.cache, u.cap, k, v); }
      case Update(k, v) => UpdateThenRead(u, k, v);
      case Remove(k) => RemovedFromTable(u, k);
      case Get(k) => if u.Exists(k) { GottenFacts(u, k); }
      case Clear =>
    }
  }

  /** The directory entry of `k` according to the trace alone: home stores create
      it, updates overwrite it only while it is there, removal deletes it, and
      cache traffic does not occur. */
  function Recorded<K(==), V>(start: Option<V>, ops: seq<Op<K, V>>, k: K): Option<V> {
    if ops == [] then start
    else
      var prev := Recorded(start, ops[..|ops| - 1], k);
      match ops[|ops| - 1]
      case Store(x, atHome, v) => if x == k && atHome then Some(v) else prev
      case Update(x, v) => if x == k && prev.Some? then Some(v) else prev
      case Remove(x) => if x == k then None else prev
      case Get(_) => prev
      case Clear => prev
  }

  /** The directory holds exactly what the trace recorded, whatever the capacity
      and whatever was inserted into, evicted from or cleared out of the cache. */
  lemma {:induction false} DirectoryFollowsTrace<K(!new), V>(t: Table<K, V>, ops: seq<Op<K, V>>, k: K)
    requires 1 <= t.cap
    ensures
      var recorded := Recorded(if k in t.dir then Some(t.dir[k]) else None, ops, k);
      var end := After(t, ops).dir;
      recorded == if k in end then Some(end[k]) else None
  {
    if ops != [] {
      DirectoryFollowsTrace(t, ops[..|ops| - 1], k);
    }
  }

  /** Reads prefer the directory: once recorded, an entry answers every read. */
  lemma ReadsPreferDirectory<K(!new), V>(t: Table<K, V>, ops: seq<Op<K, V>>, k: K)
    requires 1 <= t.cap
    requires Recorded(if k in t.dir then Some(t.dir[k]) else None, ops, k).Some?
    ensures After(t, ops).Exists(k)
    ensures After(t, ops).Read(k) == Recorded(if k in t.dir then Some(t.dir[k]) else None, ops, k)
  {
    DirectoryFollowsTrace(t, ops, k);
  }
}
