/** The product of two limb sequences as a sum of cross products by position. */
module Convolution {
  import opened Limbs

  function At(s: seq<Limb>, i: int): Limb {
    if 0 <= i < |s| then s[i] else 0
  }

  /** Cross products `a[t] * b[k - t]` for `t` from `i` to `k`. */
  function CrossFrom(a: seq<Limb>, b: seq<Limb>, k: nat, i: nat): nat
    decreases if i <= k then k - i + 1 else 0
  {
    if i > k then 0 else At(a, i) * At(b, k - i) + CrossFrom(a, b, k, i + 1)
  }

  /** The cross products of all positions below `m`, each at its weight. */
  function Accumulated(a: seq<Limb>, b: seq<Limb>, m: nat): nat {
    if m == 0 then 0 else Accumulated(a, b, m - 1) + CrossFrom(a, b, m - 1, 0) * Pow(BASE, m - 1)
  }

  // ---------- the sum of cross products is the product ----------

  lemma {:induction false} CrossEmpty(b: seq<Limb>, k: nat, i: nat)
    ensures CrossFrom([], b, k, i) == 0
    decreases if i <= k then k - i + 1 else 0
  {
    if i <= k { CrossEmpty(b, k, i + 1); }
  }

  lemma {:induction false} CrossShift(a: seq<Limb>, b: seq<Limb>, k: nat, i: nat)
    requires a != [] && 1 <= k
    ensures CrossFrom(a, b, k, i + 1) == CrossFrom(a[1..], b, k - 1, i)
    decreases if i <= k then k - i + 1 else 0
  {
    if i + 1 <= k {
      CrossShift(a, b, k, i + 1);
      assert At(a, i + 1) == At(a[1..], i);
    }
  }

  lemma {:induction false} AccumulatedEmpty(b: seq<Limb>, m: nat)
    ensures Accumulated([], b, m) == 0
  {
    if m > 0 {
      AccumulatedEmpty(b, m - 1);
      CrossEmpty(b, m - 1, 0);
    }
  }

  /** Splitting off the lowest limb of `a`. */
  lemma {:induction false} AccumulatedSplit(a: seq<Limb>, b: seq<Limb>, m: nat)
    requires a != [] && 1 <= m
    ensures Accumulated(a, b, m) ==
            a[0] * Value(b[..if m < |b| then m else |b|]) + BASE * Accumulated(a[1..], b, m - 1)
  {
    var k := m - 1;
    var upto := b[..if m < |b| then m else |b|];
    if k == 0 {
      assert CrossFrom(a, b, 0, 0) == a[0] * At(b, 0);
      if b != [] { ValueOne(b[0]); assert upto == [b[0]]; }
      assert a[0] * At(b, 0) * Pow(BASE, 0) == a[0] * At(b, 0);
    } else {
      var before := b[..if k < |b| then k else |b|];
      AccumulatedSplit(a, b, k);
      CrossShift(a, b, k, 0);
      NextOf(b, k);
      UnfoldAccumulated(a[1..], b, k);
      SplitArithmetic(a[0], At(b, k), Value(before), CrossFrom(a[1..], b, k - 1, 0),
                      Accumulated(a[1..], b, k - 1), Pow(BASE, k), Pow(BASE, k - 1));
    }
  }

  lemma NextOf(b: seq<Limb>, k: nat)
    ensures Value(b[..if k + 1 < |b| then k + 1 else |b|])
         == Value(b[..if k < |b| then k else |b|]) + Pow(BASE, k) * At(b, k)
  {
    if k < |b| { ValueSnoc(b, k); }
  }

  lemma UnfoldAccumulated(a: seq<Limb>, b: seq<Limb>, m: nat)
    requires 1 <= m
    ensures Accumulated(a, b, m) == Accumulated(a, b, m - 1) + CrossFrom(a, b, m - 1, 0) * Pow(BASE, m - 1)
  {
  }

  lemma SplitArithmetic(x: nat, y: nat, low: nat, cross: nat, acc: nat, p: nat, q: nat)
    requires p == BASE * q
    ensures x * low + BASE * acc + (x * y + cross) * p == x * (low + p * y) + BASE * (acc + cross * q)
  {
    calc {
      x * low + BASE * acc + (x * y + cross) * p;
      { MulDistributes(p, x * y, cross); }
      x * low + BASE * acc + (x * y) * p + cross * p;
      { MulAssociates(x, y, p); MulDistributes(x, low, p * y); }
      x * (low + p * y) + BASE * acc + cross * p;
      { MulAssociates(cross, BASE, q); MulAssociates(BASE, cross, q); }
      x * (low + p * y) + BASE * acc + BASE * (cross * q);
    }
  }

  lemma {:induction false} CrossProductsSum(a: seq<Limb>, b: seq<Limb>)
    ensures Accumulated(a, b, |a| + |b|) == Value(a) * Value(b)
  {
    if a == [] {
      AccumulatedEmpty(b, |b|);
    } else {
      AccumulatedSplit(a, b, |a| + |b|);
      assert b[..|b|] == b;
      CrossProductsSum(a[1..], b);
      assert |a| + |b| - 1 == |a[1..]| + |b|;
      ProductSplit(a[0], Value(a[1..]), Value(b));
    }
  }

  lemma ProductSplit(x: nat, y: nat, z: nat)
    ensures (x + BASE * y) * z == x * z + BASE * (y * z)
  {
    MulAssociates(BASE, y, z);
    MulDistributes(z, x, BASE * y);
  }

  // ---------- the ranges the squaring loops visit ----------

  /** Beyond the last limb of `a` there is nothing to add. */
  lemma {:induction false} CrossBeyond(a: seq<Limb>, b: seq<Limb>, k: nat, i: nat)
    requires |a| <= i
    ensures CrossFrom(a, b, k, i) == 0
    decreases if i <= k then k - i + 1 else 0
  {
    if i <= k { CrossBeyond(a, b, k, i + 1); }
  }

  /** Terms whose partner lies beyond the last limb of `b` can be skipped. */
  lemma {:induction false} CrossSkip(a: seq<Limb>, b: seq<Limb>, k: nat, i: nat)
    requires i + |b| <= k + 1
    ensures CrossFrom(a, b, k, 0) == CrossFrom(a, b, k, i)
  {
    if i > 0 {
      CrossSkip(a, b, k, i - 1);
      assert At(b, k - (i - 1)) == 0;
    }
  }

  /** Each position adds at most one product per limb. */
  lemma {:induction false} CrossBound(a: seq<Limb>, b: seq<Limb>, k: nat, i: nat)
    ensures CrossFrom(a, b, k, i) <= (if i < |a| then |a| - i else 0) * ((BASE - 1) * (BASE - 1))
    decreases if i <= k then k - i + 1 else 0
  {
    if i <= k {
      CrossBound(a, b, k, i + 1);
      var x, y := At(a, i), At(b, k - i);
      MulMonotone(x, BASE - 1, y);
      MulMonotone(y, BASE - 1, BASE - 1);
      if i < |a| {
        MulDistributes((BASE - 1) * (BASE - 1), |a| - i - 1, 1);
      }
    }
  }
}
