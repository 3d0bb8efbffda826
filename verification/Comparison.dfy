/** Comparing numbers from their top limbs down. */
module Comparison {
  import opened Limbs
  import opened HighLimbs
  import opened Borrows

  /** How much `a + b` falls short of `c` above position `i`, in units of it. */
  ghost function Shortfall(a: Num, b: Num, c: Num, i: nat): int {
    High(c, i) - High(a, i) - High(b, i)
  }

  lemma ShortfallStep(a: Num, b: Num, c: Num, i: nat)
    ensures Shortfall(a, b, c, i) ==
            BASE * Shortfall(a, b, c, i + 1) + c.GetBigit(i) - a.GetBigit(i) - b.GetBigit(i)
  {
    HighRec(a, i);
    HighRec(b, i);
    HighRec(c, i);
  }

  /** Below every exponent the shortfall is the whole difference. */
  lemma ShortfallExact(a: Num, b: Num, c: Num, i: nat)
    requires i <= a.exp && i <= b.exp && i <= c.exp
    ensures c.Number() - a.Number() - b.Number() == Shortfall(a, b, c, i) * Pow(BASE, i)
    ensures 0 <= Shortfall(a, b, c, i) ==>
      Sign(a.Number() + b.Number() - c.Number()) == if Shortfall(a, b, c, i) != 0 then -1 else 0
  {
    HighExact(a, i);
    HighExact(b, i);
    HighExact(c, i);
    PowPositive(BASE, i);
    Scaled(High(a, i), High(b, i), High(c, i), Pow(BASE, i));
  }

  lemma Scaled(x: int, y: int, z: int, p: nat)
    requires 1 <= p
    ensures z * p - x * p - y * p == (z - x - y) * p
    ensures 0 <= z - x - y ==> (if z - x - y != 0 then z * p - x * p - y * p > 0 else z * p - x * p - y * p == 0)
  {
    MulDistributes(p, z, -x);
    MulDistributes(p, z - x, -y);
    if 0 < z - x - y { MulMonotone(1, z - x - y, p); }
  }

  lemma HighRec(n: Num, i: nat)
    ensures High(n, i) == High(n, i + 1) * BASE + n.GetBigit(i)
  {
  }

  function Longer(a: Num, b: Num): nat {
    if a.NumBigits() > b.NumBigits() then a.NumBigits() else b.NumBigits()
  }

  /** No zero among the three is long enough to mislead. */
  predicate Comparable(a: Num, b: Num, c: Num) {
    && (a.Normal() || a.NumBigits() <= c.NumBigits())
    && (b.Normal() || b.NumBigits() <= c.NumBigits())
    && (c.Normal() || (c.Zero() && c.NumBigits() <= Longer(a, b) + 1))
  }

  /** The early exits: lengths alone can settle the comparison. */
  lemma LengthsDecideSum(a: Num, b: Num, c: Num)
    requires Comparable(a, b, c)
    ensures Longer(a, b) + 1 < c.NumBigits() ==> a.Number() + b.Number() < c.Number()
    ensures Longer(a, b) > c.NumBigits() ==> a.Number() + b.Number() > c.Number()
  {
    if Longer(a, b) + 1 < c.NumBigits() { ShortSum(a, b, c); }
    if Longer(a, b) > c.NumBigits() {
      var m := if a.NumBigits() > b.NumBigits() then a else b;
      if c.Normal() {
        NumBigitsDecide(m, c);
      } else {
        NumberZero(c);
        NormalBounds(m);
        PowPositive(BASE, m.NumBigits() - 1);
      }
    }
  }

  lemma ShortSum(a: Num, b: Num, c: Num)
    requires c.Normal() && Longer(a, b) + 1 < c.NumBigits()
    ensures a.Number() + b.Number() < c.Number()
  {
    var most := Longer(a, b);
    NormalBounds(c);
    LengthBounds(a);
    LengthBounds(b);
    PowMonotone(BASE, a.NumBigits(), most);
    PowMonotone(BASE, b.NumBigits(), most);
    PowBase(most);
    PowMonotone(BASE, most + 1, c.NumBigits() - 1);
  }

  /** Above position `i` the sum is already larger, or already short by two units. */
  lemma SumDecides(a: Num, b: Num, c: Num, i: nat)
    ensures High(a, i) + High(b, i) > High(c, i) ==> a.Number() + b.Number() > c.Number()
    ensures High(a, i) + High(b, i) + 2 <= High(c, i) ==> a.Number() + b.Number() < c.Number()
  {
    HighBounds(a, i);
    HighBounds(b, i);
    HighBounds(c, i);
    UnitsDecide(High(a, i), High(b, i), High(c, i), Pow(BASE, i), a.Number(), b.Number(), c.Number());
  }

  lemma UnitsDecide(x: nat, y: nat, z: nat, p: nat, a: nat, b: nat, c: nat)
    requires x * p <= a < (x + 1) * p && y * p <= b < (y + 1) * p && z * p <= c < (z + 1) * p
    ensures x + y > z ==> a + b > c
    ensures x + y + 2 <= z ==> a + b < c
  {
    if x + y > z { SumOfUnits(x, y, z + 1, p); }
    if x + y + 2 <= z { SumOfUnits(x + 1, y + 1, z, p); }
  }

  lemma SumOfUnits(x: nat, y: nat, z: nat, p: nat)
    ensures x + y >= z ==> x * p + y * p >= z * p
    ensures x + y <= z ==> x * p + y * p <= z * p
  {
    MulDistributes(p, x, y);
    if x + y >= z { MulMonotone(z, x + y, p); }
    if x + y <= z { MulMonotone(x + y, z, p); }
  }

  /** By value, then by stored limbs. */
  function CompareOrder(a: Num, b: Num): int {
    if a.Number() != b.Number() then Sign(a.Number() - b.Number()) else Sign(|a.bigits| - |b.bigits|)
  }

  /** No leading zeros, or a zero that is not longer than the number next to it. */
  predicate Stored(n: Num, d: Num) {
    n.Normal() || (n.Zero() && n.NumBigits() <= d.NumBigits())
  }

  /** With different lengths the longer number is larger. */
  lemma NumBigitsDecide(a: Num, b: Num)
    requires Stored(a, b) && Stored(b, a)
    ensures a.NumBigits() < b.NumBigits() ==> a.Number() < b.Number()
    ensures a.NumBigits() > b.NumBigits() ==> a.Number() > b.Number()
  {
    if a.NumBigits() < b.NumBigits() { ShorterIsSmaller(a, b); }
    if a.NumBigits() > b.NumBigits() { ShorterIsSmaller(b, a); }
  }

  lemma ShorterIsSmaller(a: Num, b: Num)
    requires b.Normal() && a.NumBigits() < b.NumBigits()
    ensures a.Number() < b.Number()
  {
    NormalBounds(b);
    LengthBounds(a);
    PowMonotone(BASE, a.NumBigits(), b.NumBigits() - 1);
  }

  /** Equal down to the larger exponent: the one that goes on below is no smaller. */
  lemma LeftoversDecide(a: Num, b: Num, p: nat)
    requires p == (if a.exp > b.exp then a.exp else b.exp) && High(a, p) == High(b, p)
    ensures a.exp <= b.exp ==> a.Number() >= b.Number()
    ensures b.exp <= a.exp ==> b.Number() >= a.Number()
  {
    HighBounds(a, p);
    HighBounds(b, p);
    if a.exp <= b.exp { HighExact(b, p); }
    if b.exp <= a.exp { HighExact(a, p); }
  }

  // ---------- when equal numbers are called different ----------

  /** `n` is `d` with trailing zero limbs folded into the exponent. */
  predicate StoredShorter(n: Num, d: Num) {
    && |n.bigits| < |d.bigits| && n.NumBigits() == d.NumBigits()
    && d.bigits == Zeros(|d.bigits| - |n.bigits|) + n.bigits
  }

  lemma {:induction false} ValueInjective(s: seq<Limb>, t: seq<Limb>)
    requires |s| == |t| && Value(s) == Value(t)
    ensures s == t
  {
    if s != [] {
      SameLowLimb(s[0], Value(s[1..]), t[0], Value(t[1..]));
      ValueInjective(s[1..], t[1..]);
      assert s == [s[0]] + s[1..] && t == [t[0]] + t[1..];
    }
  }

  lemma SameLowLimb(x: Limb, y: nat, x': Limb, y': nat)
    requires x + BASE * y == x' + BASE * y'
    ensures x == x' && y == y'
  {
  }

  /** Equal numbers stored with different lengths are exactly those. */
  lemma StoredShorterExactly(n: Num, d: Num)
    requires d.Normal() && (n.Normal() || n.Zero())
    ensures n.Number() == d.Number() && |n.bigits| < |d.bigits| <==> n.Normal() && StoredShorter(n, d)
  {
    if |n.bigits| < |d.bigits| {
      NormalBounds(d);
      PowPositive(BASE, d.NumBigits() - 1);
      if n.Zero() {
        NumberZero(n);
      } else {
        NumBigitsDecide(n, d);
        if n.NumBigits() == d.NumBigits() { SameNumberSameLimbs(n, d); }
      }
    }
  }

  lemma SameNumberSameLimbs(n: Num, d: Num)
    requires n.NumBigits() == d.NumBigits() && |n.bigits| < |d.bigits|
    ensures n.Number() == d.Number() <==> d.bigits == Zeros(|d.bigits| - |n.bigits|) + n.bigits
  {
    var k := |d.bigits| - |n.bigits|;
    var padded := Zeros(k) + n.bigits;
    ZerosBelow(n.bigits, k, d.exp);
    PowPositive(BASE, d.exp);
    if n.Number() == d.Number() {
      CancelScale(Value(padded), Value(d.bigits), Pow(BASE, d.exp));
      CancelScale(Value(d.bigits), Value(padded), Pow(BASE, d.exp));
      ValueInjective(padded, d.bigits);
    }
  }
}
