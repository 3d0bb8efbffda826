/** Little-endian sequences of 32-bit limbs and the numbers they denote. */
module Limbs {

  const BASE: nat := 0x1_0000_0000
  const BITS: nat := 32

  type Limb = x: int | 0 <= x < BASE

  function Pow(b: nat, e: nat): nat {
    if e == 0 then 1 else b * Pow(b, e - 1)
  }

  function Value(s: seq<Limb>): nat {
    if s == [] then 0 else s[0] + BASE * Value(s[1..])
  }

  // ---------- powers ----------

  lemma {:induction false} PowPositive(b: nat, e: nat)
    requires 1 <= b
    ensures 1 <= Pow(b, e)
  {
    if e > 0 { PowPositive(b, e - 1); MulMonotone(1, b, Pow(b, e - 1)); }
  }

  lemma {:induction false} PowAdd(b: nat, m: nat, n: nat)
    ensures Pow(b, m + n) == Pow(b, m) * Pow(b, n)
  {
    if m > 0 {
      PowAdd(b, m - 1, n);
      MulAssociates(b, Pow(b, m - 1), Pow(b, n));
    }
  }

  lemma {:induction false} PowMul(b: nat, m: nat, n: nat)
    ensures Pow(Pow(b, m), n) == Pow(b, m * n)
  {
    if n > 0 {
      PowMul(b, m, n - 1);
      assert m * n == m + m * (n - 1);
      PowAdd(b, m, m * (n - 1));
    }
  }

  lemma {:induction false} PowProduct(a: nat, b: nat, e: nat)
    ensures Pow(a * b, e) == Pow(a, e) * Pow(b, e)
  {
    if e > 0 {
      PowProduct(a, b, e - 1);
      var x, y := Pow(a, e - 1), Pow(b, e - 1);
      assert (a * b) * (x * y) == (a * x) * (b * y) by { Rearrange(a, b, x, y); }
    }
  }

  lemma {:induction false} PowMonotone(b: nat, m: nat, n: nat)
    requires 1 <= b && m <= n
    ensures Pow(b, m) <= Pow(b, n)
  {
    if m < n {
      PowMonotone(b, m, n - 1);
      PowPositive(b, n - 1);
      MulMonotone(1, b, Pow(b, n - 1));
    }
  }

  lemma PowBase(k: nat)
    ensures Pow(BASE, k + 1) == BASE * Pow(BASE, k)
  {
  }

  // ---------- products ----------

  lemma MulMonotone(x: nat, y: nat, z: nat)
    requires x <= y
    ensures x * z <= y * z
  {
  }

  lemma MulAssociates(x: int, y: int, z: int)
    ensures (x * y) * z == x * (y * z)
  {
  }

  lemma MulDistributes(x: int, y: int, z: int)
    ensures x * (y + z) == x * y + x * z
  {
  }

  lemma Rearrange(a: int, b: int, x: int, y: int)
    ensures (a * b) * (x * y) == (a * x) * (b * y)
  {
    MulAssociates(a, b, x * y);
    MulAssociates(b, x, y);
    MulAssociates(x, b, y);
    MulAssociates(a, x, b * y);
  }

  lemma DivIs(e: nat, m: nat, q: nat, r: nat)
    requires 1 <= m && e == m * q + r && r < m
    ensures e / m == q
  {
    var d := e / m;
    assert e == m * d + e % m;
    if d < q { MulMonotone(d + 1, q, m); MulDistributes(m, d, 1); }
    if d > q { MulMonotone(q + 1, d, m); MulDistributes(m, q, 1); }
  }

  // ---------- values ----------

  lemma {:induction false} ValueAppend(a: seq<Limb>, b: seq<Limb>)
    ensures Value(a + b) == Value(a) + Pow(BASE, |a|) * Value(b)
  {
    if a == [] {
      assert a + b == b;
    } else {
      assert (a + b)[1..] == a[1..] + b;
      ValueAppend(a[1..], b);
      PowBase(|a| - 1);
      MulAssociates(BASE, Pow(BASE, |a| - 1), Value(b));
    }
  }

  lemma ValueOne(x: Limb)
    ensures Value([x]) == x
  {
    assert [x][1..] == [];
  }

  /** One more limb on top. */
  lemma ValueSnoc(s: seq<Limb>, k: nat)
    requires k < |s|
    ensures Value(s[..k + 1]) == Value(s[..k]) + Pow(BASE, k) * s[k]
  {
    assert s[..k + 1] == s[..k] + [s[k]];
    ValueAppend(s[..k], [s[k]]);
    ValueOne(s[k]);
  }

  lemma {:induction false} ValueBound(s: seq<Limb>)
    ensures Value(s) < Pow(BASE, |s|)
  {
    if s != [] {
      ValueBound(s[1..]);
      PowBase(|s| - 1);
    }
  }

  lemma ValueTop(s: seq<Limb>)
    requires s != [] && s[|s| - 1] != 0
    ensures Pow(BASE, |s| - 1) <= Value(s)
  {
    ValueSnoc(s, |s| - 1);
    assert s[..|s|] == s;
    MulMonotone(1, s[|s| - 1], Pow(BASE, |s| - 1));
  }

  lemma {:induction false} ValueZeros(s: seq<Limb>)
    ensures Value(s) == 0 <==> forall i :: 0 <= i < |s| ==> s[i] == 0
  {
    if s != [] {
      ValueZeros(s[1..]);
      assert forall i :: 0 <= i < |s| - 1 ==> s[1..][i] == s[i + 1];
      if Value(s) == 0 {
        forall i | 0 <= i < |s| ensures s[i] == 0 {
          if i > 0 { assert s[i] == s[1..][i - 1]; }
        }
      }
    }
  }

  // ---------- numbers with a limb exponent ----------

  /** The number `Value(bigits) * BASE^exp`. */
  datatype Num = Num(bigits: seq<Limb>, exp: nat) {

    function Number(): nat {
      Value(bigits) * Pow(BASE, exp)
    }

    /** Position one past the top limb. */
    function NumBigits(): nat {
      |bigits| + exp
    }

    /** The limb at absolute position `i`; zero outside. */
    function GetBigit(i: int): Limb {
      if exp <= i < NumBigits() then bigits[i - exp] else 0
    }

    /** No leading zero limb. */
    predicate Normal() {
      bigits != [] && bigits[|bigits| - 1] != 0
    }

    /** The shape that subtraction leaves behind for zero. */
    predicate Zero() {
      bigits == [0]
    }
  }

  lemma NumberZero(n: Num)
    requires n.Zero()
    ensures n.Number() == 0
  {
    ValueOne(0);
  }

  /** Where a number without leading zeros lies. */
  lemma NormalBounds(n: Num)
    requires n.Normal()
    ensures Pow(BASE, n.NumBigits() - 1) <= n.Number() < Pow(BASE, n.NumBigits())
  {
    ValueTop(n.bigits);
    ValueBound(n.bigits);
    PowPositive(BASE, n.exp);
    PowAdd(BASE, |n.bigits| - 1, n.exp);
    PowAdd(BASE, |n.bigits|, n.exp);
    MulMonotone(Pow(BASE, |n.bigits| - 1), Value(n.bigits), Pow(BASE, n.exp));
    MulMonotone(Value(n.bigits) + 1, Pow(BASE, |n.bigits|), Pow(BASE, n.exp));
    assert (Value(n.bigits) + 1) * Pow(BASE, n.exp) == Value(n.bigits) * Pow(BASE, n.exp) + Pow(BASE, n.exp);
  }
}
