/** The abstract LRU cache: a sequence of key/value entries, most recently used
    first, with pairwise distinct keys. */
module Recency {
  import opened Records

  /** The value stored under `k`, if any. */
  function Find<K(==), V>(c: seq<(K, V)>, k: K): Option<V> {
    if c == [] then None
    else if c[0].0 == k then Some(c[0].1)
    else Find(c[1..], k)
  }

  predicate Has<K(==), V>(c: seq<(K, V)>, k: K) {
    Find(c, k).Some?
  }

  predicate Distinct<K(==), V>(c: seq<(K, V)>) {
    forall i, j :: 0 <= i < j < |c| ==> c[i].0 != c[j].0
  }

  predicate WellFormed<K(==), V>(c: seq<(K, V)>, cap: nat) {
    Distinct(c) && |c| <= cap
  }

  /** The entries without the one stored under `k`. */
  function Without<K(==), V>(c: seq<(K, V)>, k: K): seq<(K, V)> {
    if c == [] then []
    else if c[0].0 == k then c[1..]
    else [c[0]] + Without(c[1..], k)
  }

  /** A hit on `k`: its entry moves to the front. */
  function Touched<K(==), V>(c: seq<(K, V)>, k: K): seq<(K, V)>
    requires Has(c, k)
  {
    [(k, Find(c, k).value)] + Without(c, k)
  }

  /** Insert or overwrite `k`; a full cache first drops its last entry. */
  function Inserted<K(==), V>(c: seq<(K, V)>, cap: nat, k: K, v: V): seq<(K, V)>
    requires 1 <= cap
  {
    if Has(c, k) then [(k, v)] + Without(c, k)
    else if |c| + 1 > cap then [(k, v)] + c[..|c| - 1]
    else [(k, v)] + c
  }

  // ---------- reading entries ----------

  lemma {:induction false} FindAt<K, V>(c: seq<(K, V)>, p: nat)
    requires Distinct(c) && p < |c|
    ensures Find(c, c[p].0) == Some(c[p].1)
  {
    if p != 0 {
      assert c[0].0 != c[p].0;
      FindAt(c[1..], p - 1);
    }
  }

  lemma {:induction false} FoundSomewhere<K, V>(c: seq<(K, V)>, k: K) returns (p: nat)
    requires Has(c, k)
    ensures p < |c| && c[p] == (k, Find(c, k).value)
  {
    if c[0].0 == k {
      p := 0;
    } else {
      var q := FoundSomewhere(c[1..], k);
      p := q + 1;
    }
  }

  lemma {:induction false} FindAbsent<K, V>(c: seq<(K, V)>, k: K)
    ensures Find(c, k).None? <==> forall i :: 0 <= i < |c| ==> c[i].0 != k
  {
    if c != [] {
      FindAbsent(c[1..], k);
      assert forall i :: 1 <= i < |c| ==> c[i] == c[1..][i - 1];
      if c[0].0 != k && Find(c, k).None? {
        forall i | 0 <= i < |c| ensures c[i].0 != k {
          if i > 0 { assert c[i] == c[1..][i - 1]; }
        }
      }
    }
  }

  lemma {:induction false} FindPrefix<K, V>(c: seq<(K, V)>, n: nat, k: K)
    requires n <= |c|
    ensures Find(c[..n], k).Some? ==> Find(c[..n], k) == Find(c, k)
  {
    if n > 0 {
      assert c[..n][1..] == c[1..][..n - 1];
      FindPrefix(c[1..], n - 1, k);
    }
  }

  // ---------- removing one entry ----------

  lemma {:induction false} WithoutAt<K, V>(c: seq<(K, V)>, p: nat)
    requires Distinct(c) && p < |c|
    ensures Without(c, c[p].0) == c[..p] + c[p + 1..]
  {
    if p != 0 {
      assert c[0].0 != c[p].0;
      WithoutAt(c[1..], p - 1);
      SplitFromTail(c, p);
    }
  }

  lemma SplitFromTail<T>(c: seq<T>, p: nat)
    requires 1 <= p < |c|
    ensures [c[0]] + (c[1..][..p - 1] + c[1..][p..]) == c[..p] + c[p + 1..]
  {
  }

  lemma {:induction false} WithoutAbsent<K, V>(c: seq<(K, V)>, k: K)
    requires !Has(c, k)
    ensures Without(c, k) == c
  {
    if c != [] {
      WithoutAbsent(c[1..], k);
    }
  }

  lemma {:induction false} WithoutFacts<K, V>(c: seq<(K, V)>, k: K)
    requires Distinct(c)
    ensures Distinct(Without(c, k))
    ensures !Has(Without(c, k), k)
    ensures |Without(c, k)| == if Has(c, k) then |c| - 1 else |c|
  {
    if Has(c, k) {
      var p := FoundSomewhere(c, k);
      WithoutAt(c, p);
      FindAbsent(Without(c, k), k);
    } else {
      WithoutAbsent(c, k);
    }
  }

  lemma {:induction false} FindWithout<K, V>(c: seq<(K, V)>, k: K, other: K)
    requires other != k
    ensures Find(Without(c, k), other) == Find(c, other)
  {
    if c != [] && c[0].0 != k {
      FindWithout(c[1..], k, other);
      assert ([c[0]] + Without(c[1..], k))[1..] == Without(c[1..], k);
    }
  }

  // ---------- what the three operations keep and change ----------

  lemma RemovedFacts<K(!new), V>(c: seq<(K, V)>, cap: nat, k: K)
    requires WellFormed(c, cap)
    ensures WellFormed(Without(c, k), cap)
    ensures !Has(Without(c, k), k)
    ensures forall o :: o != k ==> Find(Without(c, k), o) == Find(c, o)
  {
    WithoutFacts(c, k);
    forall o | o != k ensures Find(Without(c, k), o) == Find(c, o) { FindWithout(c, k, o); }
  }

  lemma PushFront<K, V>(c: seq<(K, V)>, k: K, v: V)
    requires Distinct(c) && !Has(c, k)
    ensures Distinct([(k, v)] + c)
    ensures Find([(k, v)] + c, k) == Some(v)
    ensures ([(k, v)] + c)[1..] == c
  {
    FindAbsent(c, k);
    var d := [(k, v)] + c;
    assert d[1..] == c;
    forall i, j | 0 <= i < j < |d| ensures d[i].0 != d[j].0 {
      assert d[j] == c[j - 1];
      if i > 0 { assert d[i] == c[i - 1]; }
    }
  }

  lemma TouchedFacts<K(!new), V>(c: seq<(K, V)>, cap: nat, k: K)
    requires WellFormed(c, cap) && Has(c, k)
    ensures WellFormed(Touched(c, k), cap)
    ensures forall o :: Find(Touched(c, k), o) == Find(c, o)
  {
    WithoutFacts(c, k);
    PushFront(Without(c, k), k, Find(c, k).value);
    forall o ensures Find(Touched(c, k), o) == Find(c, o) {
      if o != k { FindWithout(c, k, o); }
    }
  }

  lemma InsertedFacts<K(!new), V>(c: seq<(K, V)>, cap: nat, k: K, v: V)
    requires WellFormed(c, cap) && 1 <= cap
    ensures WellFormed(Inserted(c, cap, k, v), cap)
    ensures Find(Inserted(c, cap, k, v), k) == Some(v)
    ensures forall o :: o != k ==>
      Find(Inserted(c, cap, k, v), o) == Find(c, o) || !Has(Inserted(c, cap, k, v), o)
  {
    var rest := if Has(c, k) then Without(c, k) else if |c| + 1 > cap then c[..|c| - 1] else c;
    if Has(c, k) {
      WithoutFacts(c, k);
    } else if |c| + 1 > cap {
      FindPrefix(c, |c| - 1, k);
    }
    PushFront(rest, k, v);
    forall o | o != k
      ensures Find(Inserted(c, cap, k, v), o) == Find(c, o) || !Has(Inserted(c, cap, k, v), o)
    {
      assert Find([(k, v)] + rest, o) == Find(rest, o);
      if Has(c, k) { FindWithout(c, k, o); }
      else if |c| + 1 > cap { FindPrefix(c, |c| - 1, o); }
    }
  }
}
