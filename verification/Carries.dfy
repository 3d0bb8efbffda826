/** One limb of a carrying loop, for multiplication and shifting. */
module Carries {
  import opened Limbs

  /** The invariant of a carrying loop that multiplies by `v`: what is done plus the
      pending carry is what was there, times `v`. */
  ghost predicate Carried(now: seq<Limb>, was: seq<Limb>, i: nat, carry: nat, v: nat) {
    && |now| == |was| && i <= |was|
    && now[i..] == was[i..]
    && Value(now[..i]) + Pow(BASE, i) * carry == Value(was[..i]) * v
  }

  /** Writing limb `x` and carrying `c` keeps the invariant. */
  lemma CarryStep(now: seq<Limb>, was: seq<Limb>, i: nat, carry: nat, v: nat, x: Limb, c: nat)
    requires Carried(now, was, i, carry, v) && i < |was|
    requires was[i] * v + carry == c * BASE + x
    ensures Carried(now[i := x], was, i + 1, c, v)
  {
    var next := now[i := x];
    assert next[i + 1..] == now[i..][1..];
    assert was[i + 1..] == was[i..][1..];
    ValueSnoc(next, i);
    ValueSnoc(was, i);
    assert next[..i] == now[..i];
    CarryArithmetic(Value(now[..i]), Value(was[..i]), Pow(BASE, i), carry, was[i], v, x, c);
    PowBase(i);
  }

  lemma CarryArithmetic(low: nat, old_: nat, p: nat, carry: nat, b: nat, v: nat, x: nat, c: nat)
    requires low + p * carry == old_ * v && b * v + carry == c * BASE + x
    ensures low + p * x + (BASE * p) * c == (old_ + p * b) * v
  {
    calc {
      low + p * x + (BASE * p) * c;
      { MulAssociates(p, c, BASE); MulAssociates(p, BASE, c); assert BASE * p == p * BASE; assert c * BASE == BASE * c; }
      low + p * x + p * (c * BASE);
      { MulDistributes(p, x, c * BASE); }
      low + p * (x + c * BASE);
      low + p * (b * v + carry);
      { MulDistributes(p, b * v, carry); MulAssociates(p, b, v); }
      low + p * carry + (p * b) * v;
      old_ * v + (p * b) * v;
      { MulDistributes(v, old_, p * b); }
      (old_ + p * b) * v;
    }
  }

  /** The loop is over: the last carry becomes a limb of its own unless it is zero. */
  lemma CarryOut(now: seq<Limb>, was: seq<Limb>, carry: Limb, v: nat)
    requires Carried(now, was, |was|, carry, v)
    ensures Value(if carry != 0 then now + [carry] else now) == Value(was) * v
  {
    assert now[..|now|] == now && was[..|was|] == was;
    ValueAppend(now, [carry]);
    ValueOne(carry);
  }

  /** A number at least as large as its top limb's unit has a top limb. */
  lemma TopFromValue(s: seq<Limb>)
    requires s != [] && Pow(BASE, |s| - 1) <= Value(s)
    ensures s[|s| - 1] != 0
  {
    ValueSnoc(s, |s| - 1);
    assert s[..|s|] == s;
    ValueBound(s[..|s| - 1]);
  }

  /** Multiplying by a positive number keeps the top limb nonzero. */
  lemma TopKept(now: seq<Limb>, was: seq<Limb>, carry: Limb, v: nat)
    requires |now| == |was| && was != [] && was[|was| - 1] != 0 && 1 <= v
    requires Value(if carry != 0 then now + [carry] else now) == Value(was) * v
    ensures (if carry != 0 then carry else now[|now| - 1]) != 0
  {
    if carry == 0 {
      ValueTop(was);
      Grows(Pow(BASE, |was| - 1), Value(was), v);
      TopFromValue(now);
    }
  }

  lemma Grows(p: nat, x: nat, v: nat)
    requires p <= x && 1 <= v
    ensures p <= x * v
  {
    MulMonotone(1, v, x);
  }

  // ---------- powers of two ----------

  lemma BaseIsPowerOfTwo()
    ensures Pow(2, BITS) == BASE
  {
    assert Pow(2, 4) == 16;
    PowAdd(2, 4, 4);
    PowAdd(2, 8, 8);
    PowAdd(2, 16, 16);
  }

  lemma ShiftParts(s: nat)
    requires s < BITS
    ensures Pow(2, s) * Pow(2, BITS - s) == BASE && 1 <= Pow(2, s) && 1 <= Pow(2, BITS - s)
  {
    PowAdd(2, s, BITS - s);
    BaseIsPowerOfTwo();
    PowPositive(2, s);
    PowPositive(2, BITS - s);
  }

  /** Shifting a limb by `s`: the bits that fall off the top are the high bits, and
      the room left below is exactly enough for the incoming carry. */
  lemma ShiftLimb(b: Limb, p: nat, q: nat, carry: nat)
    requires 1 <= p && 1 <= q && p * q == BASE && carry < p
    ensures b * p + carry == (b / q) * BASE + ((b * p) % BASE + carry)
    ensures (b * p) % BASE + carry < BASE
    ensures b / q < p
  {
    var h, l := b / q, b % q;
    assert b == h * q + l && l < q;
    ShiftedProduct(h, q, l, p);
    ShiftedLow(l, q, p, carry);
    ModUnique(b * p, h, l * p);
    if h >= p { MulMonotone(p, h, q); }
  }

  lemma ShiftedProduct(h: nat, q: nat, l: nat, p: nat)
    requires p * q == BASE
    ensures (h * q + l) * p == h * BASE + l * p
  {
    MulDistributes(p, h * q, l);
    MulAssociates(h, q, p);
  }

  lemma ShiftedLow(l: nat, q: nat, p: nat, carry: nat)
    requires p * q == BASE && l < q && carry < p
    ensures l * p + carry < BASE
  {
    MulMonotone(l + 1, q, p);
    MulDistributes(p, l, 1);
  }

  lemma ModUnique(x: nat, h: nat, r: nat)
    requires x == h * BASE + r && r < BASE
    ensures x % BASE == r
  {
  }
}
