/** One limb of a borrowing subtraction, and moving limbs up. */
module Borrows {
  import opened Limbs

  /** The weight of a pending borrow. */
  function Owed(borrow: nat, unit: nat): nat {
    if borrow == 0 then 0 else unit
  }

  /** After `j` limbs of the subtrahend `o`, shifted up by `d` limbs: what is left plus
      what was taken away is what was there plus the borrow. */
  ghost predicate Borrowed(now: seq<Limb>, was: seq<Limb>, o: seq<Limb>, d: nat, j: nat, borrow: nat) {
    && |now| == |was| && j <= |o| && d + |o| <= |was| && borrow <= 1
    && now[d + j..] == was[d + j..]
    && Value(now[..d + j]) + Pow(BASE, d) * Value(o[..j]) == Value(was[..d + j]) + Owed(borrow, Pow(BASE, d + j))
  }

  lemma BorrowStep(now: seq<Limb>, was: seq<Limb>, o: seq<Limb>, d: nat, j: nat, borrow: nat,
                   next: seq<Limb>, borrow': nat)
    requires Borrowed(now, was, o, d, j, borrow) && j < |o|
    requires |next| == |now| && next == now[d + j := next[d + j]] && borrow' <= 1
    requires next[d + j] == now[d + j] - o[j] - borrow + BASE * borrow'
    ensures Borrowed(next, was, o, d, j + 1, borrow')
  {
    var i := d + j;
    assert was[i] == was[i..][0] == now[i..][0] == now[i];
    assert next[i + 1..] == now[i..][1..];
    assert was[i + 1..] == was[i..][1..];
    assert next[..i] == now[..i];
    ValueSnoc(next, i);
    ValueSnoc(was, i);
    ValueSnoc(o, j);
    PowAdd(BASE, d, j);
    PowBase(i);
    BorrowArithmetic(Value(now[..i]), Value(was[..i]), Value(o[..j]), Pow(BASE, d), Pow(BASE, j),
                     next[i], was[i], o[j], borrow, borrow');
  }

  lemma BorrowArithmetic(n: int, w: int, o: int, p: nat, q: nat, x: int, b: int, y: int, c: nat, c': nat)
    requires c <= 1 && c' <= 1
    requires n + p * o == w + Owed(c, p * q) && x == b - y - c + BASE * c'
    ensures (n + (p * q) * x) + p * (o + q * y) == (w + (p * q) * b) + Owed(c', BASE * (p * q))
  {
    var r := p * q;
    BorrowUnits(r, x, b, y, c, c');
    MulDistributes(p, o, q * y);
    MulAssociates(p, q, y);
  }

  lemma BorrowUnits(r: nat, x: int, b: int, y: int, c: nat, c': nat)
    requires c <= 1 && c' <= 1 && x == b - y - c + BASE * c'
    ensures r * x == r * b - r * y - Owed(c, r) + Owed(c', BASE * r)
  {
    MulDistributes(r, b, -y);
    if c == 1 { MulDistributes(r, b - y, -1); }
    if c' == 1 { MulDistributes(r, b - y - c, BASE); }
  }

  /** The subtrahend ends within the minuend. */
  lemma SubtrahendFits(n: Num, d: Num)
    requires d.Normal() && n.exp <= d.exp && d.Number() <= n.Number()
    ensures d.exp - n.exp + |d.bigits| <= |n.bigits|
    ensures Pow(BASE, d.exp - n.exp) * Value(d.bigits) <= Value(n.bigits)
  {
    NormalBounds(d);
    LengthBounds(n);
    if n.NumBigits() < d.NumBigits() { PowMonotone(BASE, n.NumBigits(), d.NumBigits() - 1); }
    ScaledNumber(Value(d.bigits), d.exp - n.exp, n.exp);
    PowPositive(BASE, n.exp);
    CancelScale(Pow(BASE, d.exp - n.exp) * Value(d.bigits), Value(n.bigits), Pow(BASE, n.exp));
  }

  lemma LengthBounds(n: Num)
    ensures n.Number() < Pow(BASE, n.NumBigits())
  {
    ValueBound(n.bigits);
    PowPositive(BASE, n.exp);
    PowAdd(BASE, |n.bigits|, n.exp);
    ScaleStrict(Value(n.bigits), Pow(BASE, |n.bigits|), Pow(BASE, n.exp));
  }

  lemma ScaleStrict(x: nat, y: nat, p: nat)
    requires x < y && 1 <= p
    ensures x * p < y * p
  {
    MulMonotone(x + 1, y, p);
    MulDistributes(p, x, 1);
  }

  lemma CancelScale(x: nat, y: nat, p: nat)
    requires 1 <= p && x * p <= y * p
    ensures x <= y
  {
    if x > y {
      MulMonotone(y + 1, x, p);
      MulDistributes(p, y, 1);
    }
  }

  lemma ScaledNumber(v: nat, d: nat, e: nat)
    ensures v * Pow(BASE, d + e) == (Pow(BASE, d) * v) * Pow(BASE, e)
  {
    PowAdd(BASE, d, e);
    MulAssociates(v, Pow(BASE, d), Pow(BASE, e));
  }

  /** The state of the subtraction once the subtrahend, worth `x`, is used up at limb `t`. */
  ghost predicate UsedUp(now: seq<Limb>, was: seq<Limb>, t: nat, x: nat, borrow: nat) {
    && |now| == |was| && t <= |was| && now[t..] == was[t..]
    && Value(now[..t]) + x == Value(was[..t]) + Owed(borrow, Pow(BASE, t))
  }

  lemma BorrowedUsedUp(now: seq<Limb>, was: seq<Limb>, o: seq<Limb>, d: nat, x: nat, borrow: nat)
    requires Borrowed(now, was, o, d, |o|, borrow) && x == Pow(BASE, d) * Value(o)
    ensures UsedUp(now, was, d + |o|, x, borrow)
  {
    assert o[..|o|] == o;
  }

  /** Where a last borrow can go: there is none, or the limb right above the
      subtrahend, which ends below `t` and is worth `x`, has something to give. */
  predicate Settles(was: seq<Limb>, t: nat, x: nat)
    requires t <= |was|
  {
    x <= Value(was[..t]) || (t < |was| && was[t] != 0)
  }

  lemma LastBorrow(now: seq<Limb>, was: seq<Limb>, t: nat, x: nat, borrow: nat)
    requires UsedUp(now, was, t, x, borrow) && x <= Value(was)
    ensures borrow == 0 <==> x <= Value(was[..t])
    ensures borrow != 0 ==> t < |was| && now[t] == was[t]
  {
    ValueBound(now[..t]);
    if borrow != 0 {
      assert was[..|was|] == was;
      assert now[t..][0] == was[t..][0];
    }
  }

  /** With at most one limb above the subtrahend the borrow always finds its place. */
  lemma ShortDividendSettles(was: seq<Limb>, t: nat, x: nat)
    requires x <= Value(was) && t <= |was| <= t + 1
    ensures Settles(was, t, x)
  {
    assert was[..|was|] == was;
    if t < |was| {
      ValueSnoc(was, t);
      if was[t] == 0 { MulZero(Pow(BASE, t), was[t]); }
    }
  }

  lemma MulZero(p: int, x: int)
    requires x == 0
    ensures p * x == 0
  {
  }

  lemma ValueAround(s: seq<Limb>, t: nat)
    requires t < |s|
    ensures Value(s) == Value(s[..t]) + Pow(BASE, t) * s[t] + Pow(BASE, t + 1) * Value(s[t + 1..])
  {
    assert s == s[..t + 1] + s[t + 1..];
    ValueAppend(s[..t + 1], s[t + 1..]);
    ValueSnoc(s, t);
  }

  /** Taking the last borrow from the limb above completes the subtraction, unless
      that limb had nothing to give and a borrow of its own is `left`. */
  lemma BorrowTaken(now: seq<Limb>, was: seq<Limb>, t: nat, x: nat, next: seq<Limb>, left: nat)
    requires UsedUp(now, was, t, x, 1) && t < |was| && left <= 1
    requires |next| == |now| && next == now[t := next[t]] && (next[t] as int) == (was[t] as int) - 1 + BASE * left
    ensures Value(next) + x == Value(was) + Owed(left, Pow(BASE, t + 1))
  {
    ValueAround(was, t);
    ValueAround(next, t);
    assert next[..t] == now[..t];
    assert next[t + 1..] == now[t..][1..] == was[t..][1..] == was[t + 1..];
    BorrowUnits(Pow(BASE, t), next[t], was[t], 0, 1, left);
    PowBase(t);
  }

  lemma NoBorrow(now: seq<Limb>, was: seq<Limb>, t: nat, x: nat)
    requires UsedUp(now, was, t, x, 0)
    ensures Value(now) + x == Value(was)
  {
    assert now == now[..t] + now[t..] && was == was[..t] + was[t..];
    ValueAppend(now[..t], now[t..]);
    ValueAppend(was[..t], was[t..]);
  }

  /** Scaled by the common exponent: the difference, plus what was lost at position `k`. */
  lemma DifferenceScaled(n: Num, d: Num, rest: Num, k: nat, left: nat)
    requires n.exp <= d.exp && rest.exp == n.exp
    requires Value(rest.bigits) + Pow(BASE, d.exp - n.exp) * Value(d.bigits) == Value(n.bigits) + Owed(left, Pow(BASE, k))
    ensures rest.Number() == n.Number() - d.Number() + Owed(left, Pow(BASE, k + n.exp))
  {
    var x := Pow(BASE, d.exp - n.exp) * Value(d.bigits);
    ScaledNumber(Value(d.bigits), d.exp - n.exp, n.exp);
    PowAdd(BASE, k, n.exp);
    ScaledDifference(Value(rest.bigits), x, Value(n.bigits), Owed(left, Pow(BASE, k)), Pow(BASE, n.exp));
  }

  lemma ScaledDifference(a: int, x: int, w: int, o: int, p: int)
    requires a + x == w + o
    ensures a * p == w * p - x * p + o * p
  {
    MulDistributes(p, a, x);
    MulDistributes(p, w, o);
  }

  /** The source's assertion that no borrow is left, as a condition on the operands. */
  predicate Subtractable(n: Num, d: Num) {
    && n.exp <= d.exp && d.exp - n.exp + |d.bigits| <= |n.bigits|
    && Settles(n.bigits, d.exp - n.exp + |d.bigits|, Pow(BASE, d.exp - n.exp) * Value(d.bigits))
  }

  /** A subtraction that leaves no borrow does not bring a number with two or more limbs
      above the subtrahend down to one: where it would, the borrow is lost. */
  lemma StaysLong(n: Num, d: Num)
    requires Subtractable(n, d) && Pow(BASE, d.NumBigits() + 1) <= n.Number()
    ensures d.Number() + Pow(BASE, d.NumBigits() + 1) <= n.Number()
  {
    var k := d.exp - n.exp;
    var t, x := k + |d.bigits|, Pow(BASE, k) * Value(d.bigits);
    PowPositive(BASE, n.exp);
    PowAdd(BASE, t + 1, n.exp);
    CancelScale(Pow(BASE, t + 1), Value(n.bigits), Pow(BASE, n.exp));
    SubtrahendBelow(d.bigits, k);
    LimbsStayLong(n.bigits, t, x);
    ScaledNumber(Value(d.bigits), k, n.exp);
    ScaledSum(x, Pow(BASE, t + 1), Value(n.bigits), Pow(BASE, n.exp));
  }

  lemma LimbsStayLong(s: seq<Limb>, t: nat, x: nat)
    requires t <= |s| && Settles(s, t, x) && x < Pow(BASE, t) && Pow(BASE, t + 1) <= Value(s)
    ensures x + Pow(BASE, t + 1) <= Value(s)
  {
    LongSplits(s, t);
    PowBase(t);
    NoCrossing(Value(s), Value(s[..t]), Pow(BASE, t), s[t], Value(s[t + 1..]), x);
  }

  lemma ScaledSum(x: nat, y: nat, v: nat, e: nat)
    requires x + y <= v
    ensures x * e + y * e <= v * e
  {
    MulMonotone(x + y, v, e);
    MulDistributes(e, x, y);
  }

  lemma SubtrahendBelow(o: seq<Limb>, k: nat)
    ensures Pow(BASE, k) * Value(o) < Pow(BASE, k + |o|)
  {
    ValueBound(o);
    PowPositive(BASE, k);
    PowAdd(BASE, k, |o|);
    ScaleStrict(Value(o), Pow(BASE, |o|), Pow(BASE, k));
  }

  lemma LongSplits(s: seq<Limb>, t: nat)
    requires t <= |s| && Pow(BASE, t + 1) <= Value(s)
    ensures t < |s| && Value(s[..t]) < Pow(BASE, t)
    ensures Value(s) == Value(s[..t]) + Pow(BASE, t) * s[t] + (BASE * Pow(BASE, t)) * Value(s[t + 1..])
  {
    ValueBound(s);
    PowMonotone(BASE, t, t + 1);
    ValueAround(s, t);
    ValueBound(s[..t]);
    PowBase(t);
  }

  lemma NoCrossing(v: nat, low: nat, p: nat, limb: nat, high: nat, x: nat)
    requires v == low + p * limb + (BASE * p) * high
    requires low < p && limb < BASE && x < p && BASE * p <= v && (x <= low || limb != 0)
    ensures x + BASE * p <= v
  {
    MulMonotone(limb, BASE - 1, p);
    if limb != 0 { MulMonotone(1, limb, p); }
    if high > 1 { MulMonotone(2, high, BASE * p); }
  }

  /** `BASE^2 - 1` is not subtractable, although its operands are aligned and ordered. */
  lemma BorrowLost()
    ensures
      var n, d := Num([0, 0, 1], 0), Num([1], 0);
      n.Normal() && d.Normal() && d.Number() <= n.Number() && !Subtractable(n, d)
  {
    var n, d := Num([0, 0, 1], 0), Num([1], 0);
    NormalBounds(n);
    PowMonotone(BASE, 0, 2);
    ValueOne(0);
    ValueOne(1);
    assert n.bigits[..1] == [0];
    assert Pow(BASE, 0) == 1;
    assert d.Number() == 1;
  }

  // ---------- alignment ----------

  /** The limbs from `i` on have moved up by `diff`; those below are still in place. */
  ghost predicate Moved(now: seq<Limb>, was: seq<Limb>, i: nat, diff: nat) {
    && i <= |was| && |now| == |was| + diff
    && now[..i] == was[..i] && now[i + diff..] == was[i..]
  }

  lemma MoveUp(now: seq<Limb>, was: seq<Limb>, i: nat, diff: nat)
    requires Moved(now, was, i + 1, diff) && diff > 0
    ensures Moved(now[i + diff := now[i]], was, i, diff)
  {
    var next := now[i + diff := now[i]];
    assert now[i] == now[..i + 1][i] == was[..i + 1][i] == was[i];
    assert next[..i] == now[..i + 1][..i];
    assert next[i + diff..] == [was[i]] + now[i + 1 + diff..];
    assert was[i..] == [was[i]] + was[i + 1..];
  }

  lemma MoveStarts(was: seq<Limb>, diff: nat)
    ensures Moved(was + Zeros(diff), was, |was|, diff)
  {
  }

  lemma MoveEnds(now: seq<Limb>, was: seq<Limb>, diff: nat)
    requires Moved(now, was, 0, diff)
    ensures now[diff..] == was
  {
  }

  function Zeros(k: nat): (zeros: seq<Limb>)
    ensures |zeros| == k
  {
    if k == 0 then [] else [0] + Zeros(k - 1)
  }

  lemma {:induction false} ValueOfZeros(k: nat)
    ensures Value(Zeros(k)) == 0
  {
    if k > 0 {
      ValueOfZeros(k - 1);
      assert Zeros(k)[1..] == Zeros(k - 1);
    }
  }

  lemma ZerosBelow(was: seq<Limb>, diff: nat, e: nat)
    ensures Value(Zeros(diff) + was) * Pow(BASE, e) == Value(was) * Pow(BASE, diff + e)
  {
    ValueAppend(Zeros(diff), was);
    ValueOfZeros(diff);
    ScaledNumber(Value(was), diff, e);
  }
}
