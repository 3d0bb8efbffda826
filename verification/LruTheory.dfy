/** Whole-trace properties of the LRU cache: what a sequence of operations leaves
    behind, compared across capacities and against the trace itself. */
module LruTheory {
  import opened Records
  import opened Recency

  /** One client call. A `Get` is guarded by `exists`, so a miss does nothing. */
  datatype Op<+K, +V> = Insert(key: K, value: V) | Remove(key: K) | Get(key: K)

  function Step<K(==), V>(c: seq<(K, V)>, cap: nat, op: Op<K, V>): seq<(K, V)>
    requires 1 <= cap
  {
    match op
    case Insert(k, v) => Inserted(c, cap, k, v)
    case Remove(k) => Without(c, k)
    case Get(k) => if Has(c, k) then Touched(c, k) else c
  }

  /** The cache of capacity `cap` after the trace `ops`. */
  function After<K(==), V>(cap: nat, ops: seq<Op<K, V>>): seq<(K, V)>
    requires 1 <= cap
  {
    if ops == [] then [] else Step(After(cap, ops[..|ops| - 1]), cap, ops[|ops| - 1])
  }

  lemma StepWellFormed<K(!new), V>(c: seq<(K, V)>, cap: nat, op: Op<K, V>)
    requires 1 <= cap && WellFormed(c, cap)
    ensures WellFormed(Step(c, cap, op), cap)
  {
    match op
    case Insert(k, v) => InsertedFacts(c, cap, k, v);
    case Remove(k) => RemovedFacts(c, cap, k);
    case Get(k) => if Has(c, k) { TouchedFacts(c, cap, k); }
  }

  lemma {:induction false} AfterWellFormed<K(!new), V>(cap: nat, ops: seq<Op<K, V>>)
    requires 1 <= cap
    ensures WellFormed(After(cap, ops), cap)
  {
    if ops != [] {
      AfterWellFormed(cap, ops[..|ops| - 1]);
      StepWellFormed(After(cap, ops[..|ops| - 1]), cap, ops[|ops| - 1]);
    }
  }

  // ================= inclusion between capacities =================

  /** `a` arises from `b` by deleting entries. */
  predicate Subsequence<T(==)>(a: seq<T>, b: seq<T>) {
    if a == [] then true
    else if b == [] then false
    else (a[0] == b[0] && Subsequence(a[1..], b[1..])) || Subsequence(a, b[1..])
  }

  lemma {:induction false} SubsequenceTail<T>(a: seq<T>, b: seq<T>)
    requires a != [] && Subsequence(a, b)
    ensures Subsequence(a[1..], b)
  {
    if a[0] == b[0] && Subsequence(a[1..], b[1..]) {
      SubsequenceWiden(a[1..], b);
    } else {
      SubsequenceTail(a, b[1..]);
      SubsequenceWiden(a[1..], b);
    }
  }

  lemma SubsequenceWiden<T>(a: seq<T>, b: seq<T>)
    requires b != [] && Subsequence(a, b[1..])
    ensures Subsequence(a, b)
  {
  }

  lemma SubsequenceCons<T>(x: T, a: seq<T>, b: seq<T>)
    requires Subsequence(a, b)
    ensures Subsequence([x] + a, [x] + b)
  {
    assert ([x] + a)[1..] == a && ([x] + b)[1..] == b;
  }

  lemma {:induction false} SubsequenceLength<T>(a: seq<T>, b: seq<T>)
    requires Subsequence(a, b)
    ensures |a| <= |b|
  {
    if a != [] {
      if a[0] == b[0] && Subsequence(a[1..], b[1..]) {
        SubsequenceLength(a[1..], b[1..]);
      } else {
        SubsequenceLength(a, b[1..]);
      }
    }
  }

  /** Dropping the last entry of both sides keeps the relation: if the longer
      side loses an entry of the shorter one, it was the shorter one's last. */
  lemma {:induction false} SubsequenceDropLast<T>(a: seq<T>, b: seq<T>)
    requires a != [] && Subsequence(a, b)
    ensures Subsequence(a[..|a| - 1], b[..|b| - 1])
  {
    SubsequenceLength(a, b);
    if |a| > 1 {
      var a', b' := a[..|a| - 1], b[..|b| - 1];
      if a[0] == b[0] && Subsequence(a[1..], b[1..]) {
        SubsequenceDropLast(a[1..], b[1..]);
        assert a'[1..] == a[1..][..|a| - 2];
        SubsequenceLength(a[1..], b[1..]);
        assert b'[1..] == b[1..][..|b| - 2];
      } else {
        SubsequenceDropLast(a, b[1..]);
        SubsequenceLength(a, b[1..]);
        assert b'[1..] == b[1..][..|b| - 2];
      }
    }
  }

  lemma {:induction false} SubsequenceShrink<T>(a: seq<T>, b: seq<T>)
    requires a != [] && Subsequence(a, b)
    ensures Subsequence(a[..|a| - 1], b)
  {
    if |a| > 1 {
      var a' := a[..|a| - 1];
      if a[0] == b[0] && Subsequence(a[1..], b[1..]) {
        SubsequenceShrink(a[1..], b[1..]);
        assert a'[1..] == a[1..][..|a| - 2];
      } else {
        SubsequenceShrink(a, b[1..]);
      }
    }
  }

  lemma {:induction false} SubsequenceFind<K, V>(a: seq<(K, V)>, b: seq<(K, V)>, k: K)
    requires Distinct(b) && Subsequence(a, b) && Has(a, k)
    ensures Find(a, k) == Find(b, k)
  {
    if a[0] == b[0] && Subsequence(a[1..], b[1..]) {
      if a[0].0 != k { SubsequenceFind(a[1..], b[1..], k); }
    } else {
      SubsequenceFind(a, b[1..], k);
      FindAbsent(b[1..], b[0].0);
      assert forall i :: 0 <= i < |b| - 1 ==> b[1..][i].0 == b[i + 1].0;
    }
  }

  lemma {:induction false} SubsequenceWithout<K, V>(a: seq<(K, V)>, b: seq<(K, V)>, k: K)
    requires Distinct(a) && Distinct(b) && Subsequence(a, b)
    ensures Subsequence(Without(a, k), Without(b, k))
  {
    if a != [] {
      if a[0] == b[0] && Subsequence(a[1..], b[1..]) {
        if a[0].0 != k {
          SubsequenceWithout(a[1..], b[1..], k);
          SubsequenceCons(a[0], Without(a[1..], k), Without(b[1..], k));
        }
      } else if b[0].0 == k {
        FindAbsent(b[1..], k);
        assert forall i :: 0 <= i < |b| - 1 ==> b[1..][i].0 == b[i + 1].0;
        if Has(a, k) { SubsequenceFind(a, b[1..], k); }
        WithoutAbsent(a, k);
      } else {
        SubsequenceWithout(a, b[1..], k);
        assert Without(b, k)[1..] == Without(b[1..], k);
        SubsequenceWiden(Without(a, k), Without(b, k));
      }
    }
  }

  /** Every smaller cache is a thinned-out copy of the larger one, and it has no
      more free room than the larger one. */
  ghost predicate Included<K, V>(small: seq<(K, V)>, m: nat, large: seq<(K, V)>, n: nat) {
    Subsequence(small, large) && m - |small| <= n - |large|
  }

  lemma InclusionOnInsert<K(!new), V>(
    small: seq<(K, V)>, m: nat, large: seq<(K, V)>, n: nat, k: K, v: V)
    requires 1 <= m <= n && WellFormed(small, m) && WellFormed(large, n)
    requires Included(small, m, large, n)
    ensures Included(Inserted(small, m, k, v), m, Inserted(large, n, k, v), n)
  {
    SubsequenceLength(small, large);
    WithoutFacts(small, k);
    WithoutFacts(large, k);
    SubsequenceWithout(small, large, k);
    if Has(small, k) {
      SubsequenceFind(small, large, k);
      SubsequenceCons((k, v), Without(small, k), Without(large, k));
    } else if Has(large, k) {
      WithoutAbsent(small, k);
      var s' := if |small| + 1 > m then small[..|small| - 1] else small;
      if |small| + 1 > m { SubsequenceShrink(small, Without(large, k)); }
      SubsequenceCons((k, v), s', Without(large, k));
    } else if |large| + 1 > n {
      SubsequenceDropLast(small, large);
      SubsequenceCons((k, v), small[..|small| - 1], large[..|large| - 1]);
    } else {
      var s' := if |small| + 1 > m then small[..|small| - 1] else small;
      if |small| + 1 > m { SubsequenceShrink(small, large); }
      SubsequenceCons((k, v), s', large);
    }
  }

  lemma InclusionOnRemoveOrGet<K(!new), V>(
    small: seq<(K, V)>, m: nat, large: seq<(K, V)>, n: nat, op: Op<K, V>)
    requires 1 <= m <= n && WellFormed(small, m) && WellFormed(large, n) && !op.Insert?
    requires Included(small, m, large, n)
    ensures Included(Step(small, m, op), m, Step(large, n, op), n)
  {
    var k := op.key;
    WithoutFacts(small, k);
    WithoutFacts(large, k);
    SubsequenceWithout(small, large, k);
    if Has(small, k) {
      SubsequenceFind(small, large, k);
      SubsequenceCons((k, Find(large, k).value), Without(small, k), Without(large, k));
    } else {
      WithoutAbsent(small, k);
      if op.Get? && Has(large, k) {
        assert Touched(large, k)[1..] == Without(large, k);
        SubsequenceWiden(small, Touched(large, k));
      }
    }
  }

  /** The inclusion theorem: run the same trace on two capacities; the smaller
      cache's list is always a subsequence of the larger one's. */
  lemma {:induction false} Inclusion<K(!new), V>(m: nat, n: nat, ops: seq<Op<K, V>>)
    requires 1 <= m <= n
    ensures Subsequence(After(m, ops), After(n, ops))
    ensures m - |After(m, ops)| <= n - |After(n, ops)|
  {
    if ops != [] {
      var before, op := ops[..|ops| - 1], ops[|ops| - 1];
      Inclusion(m, n, before);
      AfterWellFormed(m, before);
      AfterWellFormed(n, before);
      match op
      case Insert(k, v) => InclusionOnInsert(After(m, before), m, After(n, before), n, k, v);
      case _ => InclusionOnRemoveOrGet(After(m, before), m, After(n, before), n, op);
    }
  }

  /** Raising the capacity never loses a hit and never changes its answer. */
  lemma LargerCacheKeepsHits<K(!new), V>(m: nat, n: nat, ops: seq<Op<K, V>>, k: K)
    requires 1 <= m <= n && Has(After(m, ops), k)
    ensures Find(After(n, ops), k) == Find(After(m, ops), k)
  {
    Inclusion(m, n, ops);
    AfterWellFormed(n, ops);
    SubsequenceFind(After(m, ops), After(n, ops), k);
  }

  // ================= the cache as a function of its history =================

  /** Index of the last call that inserted or looked up `k`; -1 if none did. */
  function LastTouch<K(==), V>(ops: seq<Op<K, V>>, k: K): (t: int)
    ensures -1 <= t < |ops|
  {
    if ops == [] then -1
    else
      var op := ops[|ops| - 1];
      if !op.Remove? && op.key == k then |ops| - 1 else LastTouch(ops[..|ops| - 1], k)
  }

  /** The value of the last insertion of `k`. */
  function LastInserted<K(==), V>(ops: seq<Op<K, V>>, k: K): Option<V> {
    if ops == [] then None
    else
      var op := ops[|ops| - 1];
      if op.Insert? && op.key == k then Some(op.value) else LastInserted(ops[..|ops| - 1], k)
  }

  ghost predicate OrderedByTouch<K, V>(c: seq<(K, V)>, ops: seq<Op<K, V>>) {
    forall i, j :: 0 <= i < j < |c| ==> LastTouch(ops, c[i].0) > LastTouch(ops, c[j].0)
  }

  ghost predicate ValuesAreLatest<K, V>(c: seq<(K, V)>, ops: seq<Op<K, V>>) {
    forall i :: 0 <= i < |c| ==> LastInserted(ops, c[i].0) == Some(c[i].1)
  }

  /** Entries other than `k` keep their history facts when a call about `k` is appended. */
  lemma HistoryFrame<K(!new), V>(c: seq<(K, V)>, ops: seq<Op<K, V>>, op: Op<K, V>)
    requires OrderedByTouch(c, ops) && ValuesAreLatest(c, ops)
    requires forall i :: 0 <= i < |c| ==> c[i].0 != op.key
    ensures OrderedByTouch(c, ops + [op]) && ValuesAreLatest(c, ops + [op])
  {
    var ops' := ops + [op];
    assert ops'[..|ops'| - 1] == ops;
    forall i | 0 <= i < |c|
      ensures LastTouch(ops', c[i].0) == LastTouch(ops, c[i].0)
      ensures LastInserted(ops', c[i].0) == LastInserted(ops, c[i].0)
    {
    }
  }

  /** Putting the touched key in front of untouched entries restores the order. */
  lemma HistoryPush<K(!new), V>(c: seq<(K, V)>, ops: seq<Op<K, V>>, op: Op<K, V>, v: V)
    requires OrderedByTouch(c, ops) && ValuesAreLatest(c, ops) && !op.Remove?
    requires forall i :: 0 <= i < |c| ==> c[i].0 != op.key
    requires LastInserted(ops + [op], op.key) == Some(v)
    ensures OrderedByTouch([(op.key, v)] + c, ops + [op])
    ensures ValuesAreLatest([(op.key, v)] + c, ops + [op])
  {
    var ops', d := ops + [op], [(op.key, v)] + c;
    assert ops'[..|ops'| - 1] == ops;
    HistoryFrame(c, ops, op);
    assert LastTouch(ops', op.key) == |ops|;
    forall j | 0 < j < |d| ensures LastTouch(ops', d[j].0) < |ops| {
      assert d[j] == c[j - 1];
      assert LastTouch(ops', c[j - 1].0) == LastTouch(ops, c[j - 1].0);
    }
    forall i, j | 0 < i < j < |d| ensures LastTouch(ops', d[i].0) > LastTouch(ops', d[j].0) {
      assert d[i] == c[i - 1] && d[j] == c[j - 1];
    }
  }

  lemma HistoryWithout<K(!new), V>(c: seq<(K, V)>, ops: seq<Op<K, V>>, k: K)
    requires Distinct(c) && OrderedByTouch(c, ops) && ValuesAreLatest(c, ops)
    ensures OrderedByTouch(Without(c, k), ops) && ValuesAreLatest(Without(c, k), ops)
    ensures forall i :: 0 <= i < |Without(c, k)| ==> Without(c, k)[i].0 != k
  {
    WithoutFacts(c, k);
    FindAbsent(Without(c, k), k);
    if Has(c, k) {
      var p := FoundSomewhere(c, k);
      WithoutAt(c, p);
      HistoryGap(c, ops, p);
    } else {
      WithoutAbsent(c, k);
    }
  }

  lemma HistoryGap<K(!new), V>(c: seq<(K, V)>, ops: seq<Op<K, V>>, p: nat)
    requires p < |c| && OrderedByTouch(c, ops) && ValuesAreLatest(c, ops)
    ensures OrderedByTouch(c[..p] + c[p + 1..], ops) && ValuesAreLatest(c[..p] + c[p + 1..], ops)
  {
    var d := c[..p] + c[p + 1..];
    forall i, j | 0 <= i < j < |d| ensures LastTouch(ops, d[i].0) > LastTouch(ops, d[j].0) {
      var i', j' := if i < p then i else i + 1, if j < p then j else j + 1;
      assert d[i] == c[i'] && d[j] == c[j'];
    }
    forall i | 0 <= i < |d| ensures LastInserted(ops, d[i].0) == Some(d[i].1) {
      assert d[i] == c[if i < p then i else i + 1];
    }
  }

  /** One call keeps the order by last use and the latest values. */
  lemma HistoryStep<K(!new), V>(c: seq<(K, V)>, cap: nat, ops: seq<Op<K, V>>, op: Op<K, V>)
    requires 1 <= cap && WellFormed(c, cap) && OrderedByTouch(c, ops) && ValuesAreLatest(c, ops)
    ensures OrderedByTouch(Step(c, cap, op), ops + [op])
    ensures ValuesAreLatest(Step(c, cap, op), ops + [op])
  {
    var ops' := ops + [op];
    assert ops'[..|ops'| - 1] == ops;
    HistoryWithout(c, ops, op.key);
    match op
    case Insert(k, v) =>
      FindAbsent(c, k);
      var rest := if Has(c, k) then Without(c, k) else if |c| + 1 > cap then c[..|c| - 1] else c;
      HistoryPush(rest, ops, op, v);
    case Remove(k) =>
      HistoryFrame(Without(c, k), ops, op);
    case Get(k) =>
      if Has(c, k) {
        var p := FoundSomewhere(c, k);
        HistoryPush(Without(c, k), ops, op, Find(c, k).value);
      } else {
        FindAbsent(c, k);
        HistoryFrame(c, ops, op);
      }
  }

  /** The history theorem: the list is sorted by strictly decreasing time of last
      use, and every entry carries the value last inserted under its key. */
  lemma {:induction false} RefinesHistory<K(!new), V>(cap: nat, ops: seq<Op<K, V>>)
    requires 1 <= cap
    ensures OrderedByTouch(After(cap, ops), ops)
    ensures ValuesAreLatest(After(cap, ops), ops)
  {
    if ops != [] {
      var before, op := ops[..|ops| - 1], ops[|ops| - 1];
      assert ops == before + [op];
      RefinesHistory(cap, before);
      AfterWellFormed(cap, before);
      HistoryStep(After(cap, before), cap, before, op);
    }
  }

  /** A hit answers with the value of the last insertion. */
  lemma HitReturnsLatest<K(!new), V>(cap: nat, ops: seq<Op<K, V>>, k: K)
    requires 1 <= cap && Has(After(cap, ops), k)
    ensures Some(Find(After(cap, ops), k).value) == LastInserted(ops, k)
  {
    RefinesHistory(cap, ops);
    var p := FoundSomewhere(After(cap, ops), k);
  }

  /** An insertion loses a key other than its own exactly when it is new to a full
      cache and that key is last in line. */
  lemma VictimIsLast<K, V>(c: seq<(K, V)>, cap: nat, k: K, v: V, victim: K)
    requires 1 <= cap && WellFormed(c, cap) && victim != k && Has(c, victim)
    ensures !Has(Inserted(c, cap, k, v), victim) <==>
            !Has(c, k) && |c| == cap && c[|c| - 1].0 == victim
  {
    var p := FoundSomewhere(c, victim);
    if Has(c, k) {
      FindWithout(c, k, victim);
      assert ([(k, v)] + Without(c, k))[1..] == Without(c, k);
    } else if |c| < cap {
      assert ([(k, v)] + c)[1..] == c;
    } else {
      var kept := c[..|c| - 1];
      assert ([(k, v)] + kept)[1..] == kept;
      if p < |c| - 1 {
        FindAt(kept, p);
      } else {
        FindAbsent(kept, victim);
      }
    }
  }

  lemma LastIsOldest<K(!new), V>(c: seq<(K, V)>, ops: seq<Op<K, V>>, key: K)
    requires Distinct(c) && OrderedByTouch(c, ops) && Has(c, key)
    ensures c[|c| - 1].0 == key <==>
            forall o :: Has(c, o) ==> LastTouch(ops, key) <= LastTouch(ops, o)
  {
    var p := FoundSomewhere(c, key);
    if p == |c| - 1 {
      forall o | Has(c, o) ensures LastTouch(ops, key) <= LastTouch(ops, o) {
        var q := FoundSomewhere(c, o);
      }
    } else {
      FindAt(c, |c| - 1);
      assert Has(c, c[|c| - 1].0);
    }
  }

  /** One more insertion loses a key other than the inserted one exactly when the
      cache is full, the inserted key is new, and that key is the one whose last
      use is oldest among all resident keys. */
  lemma EvictsOldest<K(!new), V>(cap: nat, ops: seq<Op<K, V>>, k: K, v: V, victim: K)
    requires 1 <= cap && victim != k && Has(After(cap, ops), victim)
    ensures !Has(After(cap, ops + [Insert(k, v)]), victim) <==>
            && !Has(After(cap, ops), k)
            && |After(cap, ops)| == cap
            && forall o :: Has(After(cap, ops), o) ==> LastTouch(ops, victim) <= LastTouch(ops, o)
  {
    var ops' := ops + [Insert(k, v)];
    assert ops'[..|ops'| - 1] == ops;
    AfterWellFormed(cap, ops);
    RefinesHistory(cap, ops);
    VictimIsLast(After(cap, ops), cap, k, v, victim);
    LastIsOldest(After(cap, ops), ops, victim);
  }

  // ================= what surely stays =================

  /** The keys inserted or looked up by a trace. */
  function Used<K(==), V>(ops: seq<Op<K, V>>): set<K> {
    set i | 0 <= i < |ops| && !ops[i].Remove? :: ops[i].key
  }

  lemma UsedSnoc<K, V>(ops: seq<Op<K, V>>, op: Op<K, V>)
    ensures Used(ops + [op]) == if op.Remove? then Used(ops) else Used(ops) + {op.key}
  {
    var ops' := ops + [op];
    assert forall i :: 0 <= i < |ops| ==> ops'[i] == ops[i];
    assert ops'[|ops|] == op;
    forall k | k in Used(ops) + (if op.Remove? then {} else {op.key}) ensures k in Used(ops') {
      if k in Used(ops) {
        var i :| 0 <= i < |ops| && !ops[i].Remove? && ops[i].key == k;
        assert ops'[i].key == k;
      } else {
        assert ops'[|ops|].key == k;
      }
    }
  }

  /** The keys in front of position `p`. */
  function Ahead<K(==), V>(c: seq<(K, V)>, p: nat): set<K>
    requires p <= |c|
  {
    set i | 0 <= i < p :: c[i].0
  }

  lemma {:induction false} AheadSize<K, V>(c: seq<(K, V)>, p: nat)
    requires Distinct(c) && p <= |c|
    ensures |Ahead(c, p)| == p
  {
    if p > 0 {
      AheadSize(c, p - 1);
      assert Ahead(c, p) == Ahead(c, p - 1) + {c[p - 1].0};
      assert c[p - 1].0 !in Ahead(c, p - 1);
    } else {
      assert Ahead(c, 0) == {};
    }
  }

  lemma SubsetSize<T>(a: set<T>, b: set<T>)
    requires a <= b
    ensures |a| <= |b|
  {
    assert b == a + (b - a);
  }

  /** All keys in front of `k` were used by the calls `since`. */
  ghost predicate AheadOnlySince<K, V>(c: seq<(K, V)>, k: K, since: set<K>) {
    exists p :: 0 <= p < |c| && c[p].0 == k && Ahead(c, p) <= since && k !in Ahead(c, p)
  }

  lemma InsertKeepsAhead<K(!new), V>(c: seq<(K, V)>, cap: nat, k: K, since: set<K>, x: K, v: V)
    requires 1 <= cap && WellFormed(c, cap) && AheadOnlySince(c, k, since)
    requires |since + {x} - {k}| < cap
    ensures AheadOnlySince(Inserted(c, cap, x, v), k, since + {x})
  {
    if x == k {
      var d := Inserted(c, cap, x, v);
      assert d[0].0 == k && Ahead(d, 0) == {};
    } else if Has(c, x) {
      var p :| 0 <= p < |c| && c[p].0 == k && Ahead(c, p) <= since && k !in Ahead(c, p);
      var q := FoundSomewhere(c, x);
      WithoutAt(c, q);
      MovedAhead(c, q, p, k, (x, v), since);
    } else {
      NewKeepsAhead(c, cap, k, since, x, v);
    }
  }

  /** A new key in front pushes `k` one place down, which is still inside the cache. */
  lemma NewKeepsAhead<K(!new), V>(c: seq<(K, V)>, cap: nat, k: K, since: set<K>, x: K, v: V)
    requires 1 <= cap && WellFormed(c, cap) && AheadOnlySince(c, k, since)
    requires x != k && !Has(c, x) && |since + {x} - {k}| < cap
    ensures AheadOnlySince(Inserted(c, cap, x, v), k, since + {x})
  {
    var p :| 0 <= p < |c| && c[p].0 == k && Ahead(c, p) <= since && k !in Ahead(c, p);
    RoomForNew(c, p, k, since, x);
    NewPushesDown(c, cap, x, v, p);
    ShiftedAhead(c, Inserted(c, cap, x, v), p, x);
  }

  lemma NewPushesDown<K, V>(c: seq<(K, V)>, cap: nat, x: K, v: V, p: nat)
    requires p < |c| <= cap && p + 1 < cap && !Has(c, x)
    ensures
      var d := Inserted(c, cap, x, v);
      p + 1 < |d| && d[0].0 == x && d[p + 1] == c[p] && d[1..p + 1] == c[..p]
  {
  }

  lemma RoomForNew<K, V>(c: seq<(K, V)>, p: nat, k: K, since: set<K>, x: K)
    requires Distinct(c) && p < |c| && Ahead(c, p) <= since && k !in Ahead(c, p)
    requires x != k && !Has(c, x)
    ensures p + 1 <= |since + {x} - {k}|
  {
    FindAbsent(c, x);
    AheadSize(c, p);
    assert x !in Ahead(c, p);
    assert |Ahead(c, p) + {x}| == p + 1;
    assert Ahead(c, p) + {x} <= since + {x} - {k};
    SubsetSize(Ahead(c, p) + {x}, since + {x} - {k});
  }

  lemma ShiftedAhead<K, V>(c: seq<(K, V)>, d: seq<(K, V)>, p: nat, x: K)
    requires p < |c| && p + 1 < |d| && d[0].0 == x && d[1..p + 1] == c[..p]
    ensures Ahead(d, p + 1) == Ahead(c, p) + {x}
  {
    assert forall i :: 1 <= i < p + 1 ==> d[i] == d[1..p + 1][i - 1] == c[i - 1];
    assert forall i :: 0 <= i < p ==> c[i] == d[i + 1];
    forall k | k in Ahead(c, p) + {x} ensures k in Ahead(d, p + 1) {
      if k in Ahead(c, p) {
        var i :| 0 <= i < p && c[i].0 == k;
        assert d[i + 1].0 == k;
      } else {
        assert d[0].0 == k;
      }
    }
  }

  /** Moving the entry at `q` to the front, in place of another at `p`. */
  lemma MovedAhead<K, V>(c: seq<(K, V)>, q: nat, p: nat, k: K, e: (K, V), since: set<K>)
    requires Distinct(c) && p < |c| && q < |c| && c[p].0 == k != e.0 == c[q].0
    requires Ahead(c, p) <= since && k !in Ahead(c, p)
    ensures AheadOnlySince([e] + (c[..q] + c[q + 1..]), k, since + {e.0})
  {
    var d := [e] + (c[..q] + c[q + 1..]);
    var p' := if q < p then p else p + 1;
    assert d[p'] == c[p];
    forall i | 0 <= i < p' ensures d[i].0 in since + {e.0} && d[i].0 != k {
      if i > 0 {
        var j := if i - 1 < q then i - 1 else i;
        assert d[i] == c[j] && j < p;
        assert c[j].0 in Ahead(c, p);
      }
    }
    assert Ahead(d, p') <= since + {e.0} && k !in Ahead(d, p');
  }

  lemma RemoveKeepsAhead<K(!new), V>(c: seq<(K, V)>, k: K, since: set<K>, x: K)
    requires Distinct(c) && AheadOnlySince(c, k, since) && x != k
    ensures AheadOnlySince(Without(c, x), k, since)
  {
    var p :| 0 <= p < |c| && c[p].0 == k && Ahead(c, p) <= since && k !in Ahead(c, p);
    if Has(c, x) {
      var q := FoundSomewhere(c, x);
      WithoutAt(c, q);
      var d := Without(c, x);
      var p' := if q < p then p - 1 else p;
      assert d[p'] == c[p];
      forall i | 0 <= i < p' ensures d[i].0 in Ahead(c, p) {
        assert d[i] == c[if i < q then i else i + 1];
      }
      assert Ahead(d, p') <= Ahead(c, p);
    } else {
      WithoutAbsent(c, x);
    }
  }

  lemma WorkingSetStep<K(!new), V>(c: seq<(K, V)>, cap: nat, k: K, since: set<K>, op: Op<K, V>)
    requires 1 <= cap && WellFormed(c, cap) && AheadOnlySince(c, k, since) && op != Remove(k)
    requires op.Remove? || |since + {op.key} - {k}| < cap
    ensures AheadOnlySince(Step(c, cap, op), k, if op.Remove? then since else since + {op.key})
  {
    match op
    case Insert(x, v) => InsertKeepsAhead(c, cap, k, since, x, v);
    case Remove(x) => RemoveKeepsAhead(c, k, since, x);
    case Get(x) =>
      if Has(c, x) {
        InsertKeepsAhead(c, cap, k, since, x, Find(c, x).value);
      } else {
        var p :| 0 <= p < |c| && c[p].0 == k && Ahead(c, p) <= since && k !in Ahead(c, p);
        assert Ahead(c, p) <= since + {x};
      }
  }

  lemma AfterOneMore<K, V>(cap: nat, ops: seq<Op<K, V>>, op: Op<K, V>)
    requires 1 <= cap
    ensures After(cap, ops + [op]) == Step(After(cap, ops), cap, op)
  {
    var ops' := ops + [op];
    assert ops'[..|ops'| - 1] == ops;
  }

  lemma AheadOfInserted<K(!new), V>(c: seq<(K, V)>, cap: nat, k: K, v: V, since: set<K>)
    requires 1 <= cap
    ensures AheadOnlySince(Inserted(c, cap, k, v), k, since)
  {
    var d := Inserted(c, cap, k, v);
    assert d[0].0 == k && Ahead(d, 0) == {};
  }

  lemma AheadMeansHas<K(!new), V>(c: seq<(K, V)>, k: K, since: set<K>)
    requires AheadOnlySince(c, k, since)
    ensures Has(c, k)
  {
    FindAbsent(c, k);
  }

  lemma {:induction false} WorkingSetAhead<K(!new), V>(
    cap: nat, start: seq<Op<K, V>>, k: K, later: seq<Op<K, V>>)
    requires 1 <= cap && AheadOnlySince(After(cap, start), k, {})
    requires |Used(later) - {k}| < cap && Remove(k) !in later
    ensures AheadOnlySince(After(cap, start + later), k, Used(later))
  {
    if later == [] {
      assert start + later == start;
      assert Used(later) == {};
    } else {
      var rest, op := later[..|later| - 1], later[|later| - 1];
      assert later == rest + [op];
      assert start + later == (start + rest) + [op];
      UsedSnoc(rest, op);
      SubsetSize(Used(rest) - {k}, Used(later) - {k});
      WorkingSetAhead(cap, start, k, rest);
      AfterWellFormed(cap, start + rest);
      AfterOneMore(cap, start + rest, op);
      WorkingSetStep(After(cap, start + rest), cap, k, Used(rest), op);
    }
  }

  /** The working-set guarantee: a key just inserted stays a hit as long as it is
      not removed and fewer than `cap` other keys are used. */
  lemma WorkingSetStays<K(!new), V>(
    cap: nat, before: seq<Op<K, V>>, k: K, v: V, later: seq<Op<K, V>>)
    requires 1 <= cap && |Used(later) - {k}| < cap && Remove(k) !in later
    ensures Has(After(cap, before + [Insert(k, v)] + later), k)
  {
    AfterOneMore(cap, before, Insert(k, v));
    AheadOfInserted(After(cap, before), cap, k, v, {});
    WorkingSetAhead(cap, before + [Insert(k, v)], k, later);
    AheadMeansHas(After(cap, before + [Insert(k, v)] + later), k, Used(later));
  }
}
