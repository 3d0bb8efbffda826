/** Arbitrary-precision numbers stored as little-endian 32-bit limbs times a power of
    the limb base. */
module BigInteger {
  import opened Limbs
  import opened HighLimbs
  import opened Comparison
  import opened Carries
  import opened Convolution
  import opened Borrows

  class Bigint {
    var bigits: seq<Limb>
    var exp: nat

    constructor ()
      ensures View() == Num([], 0)
    {
      bigits, exp := [], 0;
    }

    function View(): Num
      reads this
    {
      Num(bigits, exp)
    }

    // ---------- comparison ----------

    /** Orders by value first and, between equal values, by the number of stored
        limbs: the one with fewer limbs and the larger exponent is called smaller. A
        zero whose exponent makes it longer than the other operand is called larger. */
    static method Compare(b1: Bigint, b2: Bigint) returns (r: int)
      requires (b1.View().Normal() || b1.View().Zero()) && (b2.View().Normal() || b2.View().Zero())
      ensures Stored(b1.View(), b2.View()) && Stored(b2.View(), b1.View()) ==> r == CompareOrder(b1.View(), b2.View())
      ensures !Stored(b1.View(), b2.View()) ==> r == 1
      ensures !Stored(b2.View(), b1.View()) ==> r == -1
    {
      var n1, n2 := |b1.bigits| + b1.exp, |b2.bigits| + b2.exp;
      if n1 != n2 {
        if Stored(b1.View(), b2.View()) && Stored(b2.View(), b1.View()) { NumBigitsDecide(b1.View(), b2.View()); }
        return if n1 > n2 then 1 else -1;
      }
      r := CompareLimbs(b1, b2);
    }

    /** The comparing loop, from the top limbs down. */
    static method CompareLimbs(b1: Bigint, b2: Bigint) returns (r: int)
      requires b1.View().NumBigits() == b2.View().NumBigits()
      ensures r == CompareOrder(b1.View(), b2.View())
    {
      ghost var v1, v2 := b1.View(), b2.View();
      var i, j := |b1.bigits| - 1, |b2.bigits| - 1;
      var end := if i - j < 0 then 0 else i - j;
      while i >= end
        invariant i - j == v2.exp - v1.exp && end - 1 <= i < |b1.bigits| && -1 <= j < |b2.bigits|
        invariant High(v1, i + 1 + v1.exp) == High(v2, j + 1 + v2.exp)
        decreases i
      {
        var d1, d2 := b1.bigits[i], b2.bigits[j];
        assert High(v1, i + v1.exp) == High(v1, i + 1 + v1.exp) * BASE + d1;
        assert High(v2, j + v2.exp) == High(v2, j + 1 + v2.exp) * BASE + d2;
        if d1 != d2 {
          if d1 > d2 { HighDecides(v2, v1, i + v1.exp); return 1; }
          HighDecides(v1, v2, i + v1.exp);
          return -1;
        }
        i, j := i - 1, j - 1;
      }
      LeftoversDecide(v1, v2, i + 1 + v1.exp);
      return if i > j then 1 else if i < j then -1 else 0;
    }

    /** Exactly the sign of `lhs1 + lhs2 - rhs`, for any of them zero, unless its exponent
        makes a zero longer than what it is compared with: then lengths alone decide. */
    static method AddCompare(lhs1: Bigint, lhs2: Bigint, rhs: Bigint) returns (r: int)
      requires rhs.bigits != []
      ensures Comparable(lhs1.View(), lhs2.View(), rhs.View()) ==>
                r == Sign(lhs1.View().Number() + lhs2.View().Number() - rhs.View().Number())
      ensures Longer(lhs1.View(), lhs2.View()) > rhs.View().NumBigits() ==> r == 1
      ensures Longer(lhs1.View(), lhs2.View()) + 1 < rhs.View().NumBigits() ==> r == -1
    {
      ghost var a, b, c := lhs1.View(), lhs2.View(), rhs.View();
      var n1, n2, n := |lhs1.bigits| + lhs1.exp, |lhs2.bigits| + lhs2.exp, |rhs.bigits| + rhs.exp;
      var most := if n1 > n2 then n1 else n2;
      if Comparable(a, b, c) { LengthsDecideSum(a, b, c); }
      if most + 1 < n { return -1; }
      if most > n { return 1; }
      r := SumAgainst(lhs1, lhs2, rhs, n);
    }

    /** The comparing loop, from position `n - 1` down. */
    static method SumAgainst(lhs1: Bigint, lhs2: Bigint, rhs: Bigint, n: nat) returns (r: int)
      requires lhs1.View().NumBigits() <= n && lhs2.View().NumBigits() <= n && rhs.View().NumBigits() == n > rhs.exp
      ensures r == Sign(lhs1.View().Number() + lhs2.View().Number() - rhs.View().Number())
    {
      ghost var a, b, c := lhs1.View(), lhs2.View(), rhs.View();
      var borrow: nat := 0;
      var minExp := if lhs1.exp < lhs2.exp then lhs1.exp else lhs2.exp;
      if rhs.exp < minExp { minExp := rhs.exp; }
      var i := n - 1;
      while i >= minExp
        invariant minExp - 1 <= i < n
        invariant borrow == BASE * Shortfall(a, b, c, i + 1) && borrow <= BASE
      {
        var sum := lhs1.View().GetBigit(i) + lhs2.View().GetBigit(i);
        var d := rhs.View().GetBigit(i);
        assert Shortfall(a, b, c, i) == d + borrow - sum by { ShortfallStep(a, b, c, i); }
        if sum > d + borrow { SumDecides(a, b, c, i); return 1; }
        borrow := d + borrow - sum;
        if borrow > 1 { SumDecides(a, b, c, i); return -1; }
        borrow := borrow * BASE;
        i := i - 1;
      }
      ShortfallExact(a, b, c, minExp);
      return if borrow != 0 then -1 else 0;
    }

    // ---------- multiplication by one limb ----------

    method Multiply(value: Limb)
      modifies this
      ensures View().Number() == old(View().Number()) * value && exp == old(exp)
      ensures |old(bigits)| <= |bigits| <= |old(bigits)| + 1
      ensures old(View().Normal()) && value != 0 ==> View().Normal()
      ensures old(View().Zero()) ==> View().Zero()
    {
      ghost var was := bigits;
      var carry: Limb := 0;
      var n := |bigits|;
      for i := 0 to n
        invariant Carried(bigits, was, i, carry, value) && exp == old(exp)
        invariant was == [0] ==> bigits == [0] && carry == 0
      {
        var result := (bigits[i] as nat) * value + carry;
        assert was[i] == was[i..][0];
        ProductFits(bigits[i], value, carry);
        CarryStep(bigits, was, i, carry, value, result % BASE, result / BASE);
        bigits := bigits[i := result % BASE];
        carry := result / BASE;
      }
      CarryOut(bigits, was, carry, value);
      if was != [] && was[|was| - 1] != 0 && value != 0 { TopKept(bigits, was, carry, value); }
      if carry != 0 {
        bigits := bigits + [carry];
      }
      MulAssociates(Value(was), value, Pow(BASE, exp));
      MulAssociates(Value(was), Pow(BASE, exp), value);
    }

    /** Multiplication by a 64-bit or 128-bit value in that width: `half` is half the
        width, `spare` what of it lies above one limb. */
    method MultiplyWide(value: nat, half: nat, spare: nat)
      requires (spare == 1 || spare == BASE) && half == BASE * spare && value < half * half
      modifies this
      ensures View().Number() == old(View().Number()) * value && exp == old(exp)
      ensures old(View().Normal()) && value != 0 ==> View().Normal()
    {
      ghost var was := bigits;
      var lower, upper := value % half, value / half;
      SplitWide(value, half);
      var carry: nat := 0;
      for i := 0 to |bigits|
        invariant Carried(bigits, was, i, carry, value) && exp == old(exp) && carry < half * half
      {
        assert was[i] == was[i..][0];
        WideFits(upper, lower, bigits[i], carry, half, spare);
        WideStep(value, upper, lower, bigits[i], carry, half, spare);
        var result := lower * bigits[i] + carry % BASE;
        ghost var before := carry;
        carry := upper * bigits[i] * spare + result / BASE + carry / BASE;
        CarryStep(bigits, was, i, before, value, result % BASE, carry);
        bigits := bigits[i := result % BASE];
      }
      assert bigits[..|bigits|] == bigits && was[..|was|] == was;
      if carry == 0 && was != [] && was[|was| - 1] != 0 && value != 0 { TopKept(bigits, was, 0, value); }
      PushCarry(carry);
      ScaledProduct(Value(bigits), Value(was), value, Pow(BASE, exp));
    }

    /** Append the limbs of the remaining carry. */
    method PushCarry(start: nat)
      modifies this`bigits
      ensures Value(bigits) == Value(old(bigits)) + Pow(BASE, |old(bigits)|) * start
      ensures if start == 0 then bigits == old(bigits) else View().Normal()
    {
      var carry: nat := start;
      ghost var v := Value(bigits) + Pow(BASE, |bigits|) * start;
      while carry != 0
        invariant v == Value(bigits) + Pow(BASE, |bigits|) * carry
        invariant if start == 0 then bigits == old(bigits) else carry != 0 || View().Normal()
        decreases carry
      {
        PushStep(bigits, carry);
        bigits := bigits + [carry % BASE];
        carry := carry / BASE;
      }
    }

    // ---------- shifting ----------

    method ShiftLeft(shift: nat)
      modifies this
      ensures View().Number() == old(View().Number()) * Pow(2, shift)
      ensures exp == old(exp) + shift / BITS
      ensures old(View().Normal()) ==> View().Normal()
    {
      var s := shift % BITS;
      ghost var v, q := Value(bigits), shift / BITS;
      exp := exp + shift / BITS;
      ShiftExponent(v, old(exp), q, s, shift);
      if s == 0 { return; }
      ShiftBits(s);
    }

    /** The part of the shift within a limb. */
    method ShiftBits(s: nat)
      requires 0 < s < BITS
      modifies this`bigits
      ensures Value(bigits) == Value(old(bigits)) * Pow(2, s)
      ensures old(View().Normal()) ==> View().Normal()
    {
      ghost var was := bigits;
      ShiftParts(s);
      var carry := ShiftLimbs(s);
      CarryOut(bigits, was, carry, Pow(2, s));
      if was != [] && was[|was| - 1] != 0 { TopKept(bigits, was, carry, Pow(2, s)); }
      if carry != 0 {
        bigits := bigits + [carry];
      }
    }

    /** The shifting loop; the bits that fall off the top are returned. */
    method ShiftLimbs(s: nat) returns (carry: Limb)
      requires 0 < s < BITS
      modifies this`bigits
      ensures Carried(bigits, old(bigits), |bigits|, carry, Pow(2, s))
    {
      ghost var was := bigits;
      carry := 0;
      ShiftParts(s);
      for i := 0 to |bigits|
        invariant Carried(bigits, was, i, carry, Pow(2, s)) && carry < Pow(2, s)
      {
        assert was[i] == was[i..][0];
        ShiftLimb(bigits[i], Pow(2, s), Pow(2, BITS - s), carry);
        var c := bigits[i] / Pow(2, BITS - s);
        var x := (bigits[i] * Pow(2, s)) % BASE + carry;
        CarryStep(bigits, was, i, carry, Pow(2, s), x, c);
        bigits := bigits[i := x];
        carry := c;
      }
    }

    // ---------- squaring ----------

    method RemoveLeadingZeros()
      modifies this`bigits
      ensures Value(bigits) == Value(old(bigits)) && |bigits| <= |old(bigits)|
      ensures old(bigits) != [] ==> View().Normal() || View().Zero()
    {
      var top := |bigits| - 1;
      assert bigits[..top + 1] == bigits;
      while top > 0 && bigits[top] == 0
        invariant -1 <= top < |bigits| && (bigits != [] ==> 0 <= top)
        invariant bigits == old(bigits) && Value(bigits[..top + 1]) == Value(bigits)
      {
        ValueSnoc(bigits, top);
        top := top - 1;
      }
      assert bigits != [] && top == 0 ==> bigits[..top + 1] == [bigits[0]];
      bigits := bigits[..top + 1];
    }

    method Square()
      requires |bigits| < MAX_INT
      modifies this
      ensures View().Number() == old(View().Number()) * old(View().Number())
      ensures old(View().Normal()) ==> View().Normal()
      ensures exp == 2 * old(exp)
    {
      ghost var was := bigits;
      SquareBits();
      ghost var v, p := Value(was), Pow(BASE, exp);
      Rearrange(v, v, p, p);
      PowAdd(BASE, exp, exp);
      RemoveLeadingZeros();
      ValueOne(0);
      if was != [] && was[|was| - 1] != 0 {
        ValueTop(was);
        PowPositive(BASE, |was| - 1);
        MulMonotone(1, v, v);
      }
      exp := 2 * exp;
    }

    /** Add the cross products of a position in the bottom half. */
    static method AddLow(n: seq<Limb>, k: nat, start: nat) returns (sum: nat)
      requires k < |n|
      ensures sum == start + CrossFrom(n, n, k, 0)
    {
      sum := start;
      var i, j := 0, k;
      while j >= 0
        invariant 0 <= i == k - j <= k + 1
        invariant sum + CrossFrom(n, n, k, i) == start + CrossFrom(n, n, k, 0)
      {
        CrossUnroll(n, k, i, j);
        sum := sum + (n[i] as nat) * (n[j] as nat);
        i, j := i + 1, j - 1;
      }
    }

    /** Add the cross products of a position in the top half. */
    static method AddHigh(n: seq<Limb>, k: nat, start: nat) returns (sum: nat)
      requires |n| <= k < 2 * |n|
      ensures sum == start + CrossFrom(n, n, k, 0)
    {
      sum := start;
      var j := |n| - 1;
      var i := k - j;
      CrossSkip(n, n, k, i);
      while i < |n|
        invariant 0 <= i == k - j <= |n| && j < |n|
        invariant sum + CrossFrom(n, n, k, i) == start + CrossFrom(n, n, k, 0)
      {
        CrossUnroll(n, k, i, j);
        sum := sum + (n[i] as nat) * (n[j] as nat);
        i, j := i + 1, j - 1;
      }
      CrossBeyond(n, n, k, i);
    }

    /** The loop over result positions, summing cross products in 128 bits. */
    method SquareBits()
      requires |bigits| < MAX_INT
      modifies this`bigits
      ensures Value(bigits) == Value(old(bigits)) * Value(old(bigits))
      ensures |bigits| == 2 * |old(bigits)|
    {
      var n := bigits;
      bigits := seq(2 * |n|, _ => 0);
      var sum: nat := 0;
      for k := 0 to 2 * |n|
        invariant |bigits| == 2 * |n| && sum <= |n| * BASE
        invariant Value(bigits[..k]) + Pow(BASE, k) * sum == Accumulated(n, n, k)
      {
        ghost var start, was := sum, bigits;
        if k < |n| { sum := AddLow(n, k, sum); } else { sum := AddHigh(n, k, sum); }
        CrossBound(n, n, k, 0);
        SumFits(|n|, start, sum);
        bigits := bigits[k := sum % BASE];
        PlaceLimb(was, bigits, k, n, start, sum);
        sum := sum / BASE;
      }
      CrossProductsSum(n, n);
      assert bigits[..2 * |n|] == bigits;
      NothingLeft(bigits, n, sum);
    }

    // ---------- powers of ten ----------

    /** Becomes `n`, limb by limb from the low end. */
    method Assign(n: nat)
      requires n > 0
      modifies this
      ensures View().Number() == n && View().Normal() && exp == 0
    {
      bigits, exp := [], 0;
      PushCarry(n);
      assert Pow(BASE, 0) == 1;
    }

    /** Becomes `10^e`: `5^e` by repeated squaring, then a shift by `e`. */
    method AssignPow10(e: nat)
      requires e < MAX_INT
      modifies this
      ensures View().Number() == Pow(10, e) && View().Normal()
      ensures exp == e / BITS
    {
      if e == 0 {
        Assign(1);
        return;
      }
      AssignPow5(e);
      ShiftLeft(e);
      PowProduct(5, 2, e);
    }

    /** `5^e`, reading the bits of `e` from the top. */
    method AssignPow5(e: nat)
      requires 1 <= e < MAX_INT
      modifies this
      ensures View().Number() == Pow(5, e) && View().Normal() && exp == 0
    {
      var bitmask := TopBit(e);
      TopBitFacts(e);
      Assign(5);
      bitmask := bitmask / 2;
      while bitmask != 0
        invariant bitmask == 0 || IsPowerOfTwo(bitmask)
        invariant View().Normal() && exp == 0
        invariant View().Number() == Pow(5, BitsAbove(e, bitmask))
        decreases bitmask
      {
        NextBit(e, bitmask);
        ghost var d := BitsAbove(e, bitmask);
        FewLimbs(View(), d);
        PowAdd(5, d, d);
        Square();
        if (e / bitmask) % 2 != 0 {
          Multiply(5);
        }
        bitmask := bitmask / 2;
      }
    }

    // ---------- subtraction ----------

    /** `bigits[index] -= other + borrow` in 64-bit arithmetic; the new borrow is the
        sign bit. */
    method SubtractBigits(index: nat, other: Limb, borrow: Limb) returns (borrow': Limb)
      requires index < |bigits| && borrow <= 1
      modifies this`bigits
      ensures borrow' <= 1
      ensures |bigits| == |old(bigits)| && bigits == old(bigits)[index := bigits[index]]
      ensures bigits[index] == old(bigits)[index] - other - borrow + BASE * borrow'
    {
      var result: int := (bigits[index] as int) - other - borrow;
      borrow' := if result < 0 then 1 else 0;
      bigits := bigits[index := result % BASE];
    }

    /** The loop over the subtrahend's limbs, from its exponent up. */
    method SubtractLimbs(other: Bigint) returns (borrow: Limb)
      requires other != this && exp <= other.exp && other.exp - exp + |other.bigits| <= |bigits|
      modifies this`bigits
      ensures Borrowed(bigits, old(bigits), other.bigits, other.exp - exp, |other.bigits|, borrow)
    {
      ghost var was, o, d := bigits, other.bigits, other.exp - exp;
      borrow := 0;
      var i := other.exp - exp;
      for j := 0 to |other.bigits|
        invariant i == d + j && Borrowed(bigits, was, o, d, j, borrow)
      {
        ghost var prev := bigits;
        ghost var b := borrow;
        borrow := SubtractBigits(i, other.bigits[j], borrow);
        BorrowStep(prev, was, o, d, j, b, bigits, borrow);
        i := i + 1;
      }
    }

    /** A last borrow is taken from the limb above the subtrahend; `left` is what that
        limb could not give. */
    method SettleBorrow(index: nat, borrow: Limb, ghost was: seq<Limb>, ghost x: nat) returns (left: Limb)
      requires UsedUp(bigits, was, index, x, borrow) && borrow <= 1 && x <= Value(was)
      modifies this`bigits
      ensures left <= 1 && (left == 0 <==> Settles(was, index, x))
      ensures Value(bigits) + x == Value(was) + Owed(left, Pow(BASE, index + 1)) && |bigits| == |was|
    {
      LastBorrow(bigits, was, index, x, borrow);
      left := 0;
      if borrow != 0 {
        ghost var prev := bigits;
        left := SubtractBigits(index, 0, borrow);
        BorrowTaken(prev, was, index, x, bigits, left);
      } else {
        NoBorrow(bigits, was, index, x);
      }
    }

    /** The subtraction on the limbs alone, of an `other` worth `x` in this scale. */
    method SubtractWithBorrow(other: Bigint, ghost x: nat) returns (left: Limb)
      requires other != this && exp <= other.exp && other.exp - exp + |other.bigits| <= |bigits|
      requires x == Pow(BASE, other.exp - exp) * Value(other.bigits) && x <= Value(bigits)
      modifies this`bigits
      ensures left <= 1 && (left == 0 <==> Settles(old(bigits), other.exp - exp + |other.bigits|, x))
      ensures Value(bigits) + x == Value(old(bigits)) + Owed(left, Pow(BASE, other.exp - exp + |other.bigits| + 1))
      ensures |bigits| == |old(bigits)|
    {
      ghost var was := bigits;
      var index := other.exp - exp + |other.bigits|;
      var borrow := SubtractLimbs(other);
      BorrowedUsedUp(bigits, was, other.bigits, other.exp - exp, x, borrow);
      left := SettleBorrow(index, borrow, was, x);
    }

    /** The subtraction before leading zeros are dropped. */
    method SubtractInPlace(other: Bigint) returns (left: Limb)
      requires other != this && other.View().Normal() && exp <= other.exp
      requires other.View().Number() <= View().Number()
      modifies this`bigits
      ensures left <= 1 && (left == 0 <==> Subtractable(old(View()), other.View()))
      ensures View().Number() == old(View().Number()) - other.View().Number()
                                 + Owed(left, Pow(BASE, other.View().NumBigits() + 1))
      ensures |bigits| == |old(bigits)| && bigits != []
    {
      ghost var n, o := View(), other.View();
      SubtrahendFits(n, o);
      left := SubtractWithBorrow(other, Pow(BASE, o.exp - n.exp) * Value(o.bigits));
      DifferenceScaled(n, o, View(), o.exp - n.exp + |o.bigits| + 1, left);
    }

    /** Subtract a number that is not larger and not finer. `settled` is the source's
        assertion that no borrow is left over; it says exactly whether the result is
        the difference. */
    method SubtractAligned(other: Bigint) returns (settled: bool)
      requires other != this && other.View().Normal() && exp <= other.exp
      requires other.View().Number() <= View().Number()
      modifies this`bigits
      ensures settled <==> Subtractable(old(View()), other.View())
      ensures settled <==> View().Number() == old(View().Number()) - other.View().Number()
      ensures !settled ==> View().Number() == old(View().Number()) - other.View().Number()
                                              + Pow(BASE, other.View().NumBigits() + 1)
      ensures View().Normal() || View().Zero()
      ensures |bigits| <= |old(bigits)|
    {
      var left := SubtractInPlace(other);
      PowPositive(BASE, other.View().NumBigits() + 1);
      settled := left == 0;
      RemoveLeadingZeros();
    }

    /** Move the limbs up by `diff` places, top limb first, and zero the bottom. */
    method MoveLimbsUp(diff: nat)
      requires diff > 0
      modifies this`bigits
      ensures bigits == Zeros(diff) + old(bigits)
    {
      ghost var was := bigits;
      var i := |bigits|;
      bigits := bigits + Zeros(diff);
      MoveStarts(was, diff);
      while i > 0
        invariant 0 <= i && Moved(bigits, was, i, diff)
      {
        i := i - 1;
        MoveUp(bigits, was, i, diff);
        bigits := bigits[i + diff := bigits[i]];
      }
      MoveEnds(bigits, was, diff);
      bigits := Zeros(diff) + bigits[diff..];
    }

    /** Add trailing zero limbs until the exponent is no larger than `other`'s. */
    method Align(other: Bigint)
      requires other != this
      modifies this
      ensures View().Number() == old(View().Number())
      ensures if old(exp) <= other.exp then View() == old(View())
              else exp == other.exp && bigits == Zeros(old(exp) - other.exp) + old(bigits)
      ensures old(View().Normal()) ==> View().Normal()
    {
      if exp <= other.exp { return; }
      var diff := exp - other.exp;
      ghost var was := bigits;
      MoveLimbsUp(diff);
      exp := exp - diff;
      ZerosBelow(was, diff, exp);
    }

    // ---------- division ----------

    /** Quotient and remainder, except for a dividend that equals the divisor but is
        stored with fewer limbs: `Compare` calls that one smaller. `completed` says
        that no assertion of `SubtractAligned` fails on the way, which is so exactly
        for dividends with at most one limb more than the divisor. */
    method DivmodAssign(divisor: Bigint) returns (quotient: nat, completed: bool)
      requires divisor != this && divisor.View().Normal() && Stored(View(), divisor.View())
      modifies this
      ensures completed <==> old(View()).NumBigits() <= divisor.View().NumBigits() + 1
      ensures completed ==>
        var n, d, r := old(View()), divisor.View(), View();
        if n.Number() == d.Number() && |n.bigits| < |d.bigits| then quotient == 0 && r == n
        else n.Number() == quotient * d.Number() + r.Number() && r.Number() < d.Number()
      ensures completed ==>
        var n, d, r := old(View()), divisor.View(), View();
        (n.Number() == quotient * d.Number() + r.Number() && r.Number() < d.Number())
        <==> !(n.Normal() && StoredShorter(n, d))
      ensures completed ==> Stored(View(), divisor.View())
      ensures completed ==> if quotient == 0 then View() == old(View()) else exp <= divisor.exp
    {
      ghost var n, d := View(), divisor.View();
      StoredShorterExactly(n, d);
      NumBigitsDecide(n, d);
      var order := Compare(this, divisor);
      if order < 0 { return 0, true; }
      NormalPositive(d);
      if n.Zero() { NumberZero(n); }
      Align(divisor);
      quotient, completed := SubtractRepeatedly(divisor);
    }

    /** The loop: subtract the divisor until the rest is smaller, or an assertion fails. */
    method SubtractRepeatedly(divisor: Bigint) returns (quotient: nat, completed: bool)
      requires divisor != this && divisor.View().Normal() && exp <= divisor.exp
      requires View().Normal() && divisor.View().Number() <= View().Number()
      modifies this`bigits
      ensures completed <==> old(View()).NumBigits() <= divisor.View().NumBigits() + 1
      ensures completed ==>
        && old(View().Number()) == quotient * divisor.View().Number() + View().Number()
        && View().Number() < divisor.View().Number() && Stored(View(), divisor.View()) && quotient != 0
    {
      ghost var n, d := View(), divisor.View();
      LongOrShort(n, d);
      quotient := 0;
      completed := true;
      var order := 0;
      while order >= 0
        invariant completed && exp == n.exp && divisor.View() == d
        invariant n.Number() == quotient * d.Number() + View().Number()
        invariant order >= 0 <==> d.Number() <= View().Number()
        invariant Progress(n, d, View()) && (quotient == 0 ==> order >= 0)
        decreases View().Number()
      {
        NormalPositive(d);
        ghost var before := View();
        ProgressSettles(n, d, before);
        var settled := SubtractAligned(divisor);
        if !settled {
          completed := false;
          return;
        }
        ProgressStays(n, d, before, View());
        OneMore(quotient, d.Number(), before.Number(), View().Number(), n.Number());
        quotient := quotient + 1;
        order := Compare(this, divisor);
        AlignedOrder(View(), d);
      }
      LongIsLarger(n, d, View());
    }
  }

  // ---------- which divisions complete ----------

  /** Where the repeated subtraction of `d` from `n` stands: a dividend with at most one
      limb more stays that short, any other never comes down to two limbs more. */
  predicate Progress(n: Num, d: Num, rest: Num) {
    && Stored(rest, d)
    && if n.NumBigits() <= d.NumBigits() + 1 then rest.NumBigits() <= d.NumBigits() + 1
       else Pow(BASE, d.NumBigits() + 1) <= rest.Number()
  }

  lemma LongOrShort(n: Num, d: Num)
    requires n.Normal()
    ensures Progress(n, d, n)
  {
    NormalBounds(n);
    if n.NumBigits() > d.NumBigits() + 1 { PowMonotone(BASE, d.NumBigits() + 1, n.NumBigits() - 1); }
  }

  lemma ProgressSettles(n: Num, d: Num, rest: Num)
    requires d.Normal() && rest.exp <= d.exp && d.Number() <= rest.Number() && Progress(n, d, rest)
    ensures n.NumBigits() <= d.NumBigits() + 1 ==> Subtractable(rest, d)
  {
    SubtrahendFits(rest, d);
    if n.NumBigits() <= d.NumBigits() + 1 {
      ShortDividendSettles(rest.bigits, d.exp - rest.exp + |d.bigits|, Pow(BASE, d.exp - rest.exp) * Value(d.bigits));
    }
  }

  lemma ProgressStays(n: Num, d: Num, before: Num, after: Num)
    requires d.Normal() && before.exp == after.exp <= d.exp && Progress(n, d, before) && Subtractable(before, d)
    requires after.Number() == before.Number() - d.Number()
    requires (after.Normal() || after.Zero()) && |after.bigits| <= |before.bigits|
    ensures Progress(n, d, after)
  {
    if n.NumBigits() > d.NumBigits() + 1 {
      StaysLong(before, d);
      PowPositive(BASE, d.NumBigits() + 1);
      if after.Zero() { NumberZero(after); }
    }
  }

  lemma LongIsLarger(n: Num, d: Num, rest: Num)
    requires d.Normal() && Progress(n, d, rest) && rest.Number() < d.Number()
    ensures n.NumBigits() <= d.NumBigits() + 1
  {
    NormalBounds(d);
    PowMonotone(BASE, d.NumBigits(), d.NumBigits() + 1);
  }

  lemma OneMore(q: nat, d: nat, before: nat, after: nat, n: nat)
    requires n == q * d + before && after == before - d
    ensures n == (q + 1) * d + after
  {
    MulDistributes(d, q, 1);
  }

  lemma NormalPositive(n: Num)
    requires n.Normal()
    ensures 1 <= n.Number()
  {
    NormalBounds(n);
    PowPositive(BASE, n.NumBigits() - 1);
  }

  /** Equal operands that are called different: `2^32`, once as a limb above an
      exponent of one and once with its zero limb written out. */
  lemma DivisionMissed()
    ensures
      var n, d := Num([1], 1), Num([0, 1], 0);
      && n.Normal() && d.Normal() && n.NumBigits() <= d.NumBigits() + 1
      && n.Number() == d.Number() == BASE && StoredShorter(n, d)
  {
    var n, d := Num([1], 1), Num([0, 1], 0);
    ValueOne(1);
    assert d.bigits[1..] == [1];
    assert Pow(BASE, 0) == 1 && Pow(BASE, 1) == BASE;
    assert Zeros(1) == [0];
  }

  /** Once the dividend is no coarser than the divisor, `Compare` tells the truth. */
  lemma AlignedOrder(n: Num, d: Num)
    requires d.Normal() && n.exp <= d.exp && (n.Normal() || n.Zero())
    ensures CompareOrder(n, d) >= 0 <==> d.Number() <= n.Number()
  {
    if n.Number() == d.Number() {
      NormalBounds(d);
      PowPositive(BASE, d.NumBigits() - 1);
      if n.Zero() { NumberZero(n); } else { NumBigitsDecide(n, d); }
    }
  }

  // ---------- the bits of an exponent ----------

  /** The highest bit of `e`. */
  function TopBit(e: nat): nat
    requires 1 <= e
  {
    if e < 2 then 1 else 2 * TopBit(e / 2)
  }

  predicate IsPowerOfTwo(m: nat) {
    m == 1 || (m > 1 && m % 2 == 0 && IsPowerOfTwo(m / 2))
  }

  /** The number spelled by the bits of `e` above `bitmask`; all of `e` once the mask
      has run out. */
  function BitsAbove(e: nat, bitmask: nat): nat {
    if bitmask == 0 then e
    else
      QuotientNonnegative(e, 2 * bitmask);
      e / (2 * bitmask)
  }

  lemma QuotientNonnegative(e: nat, m: nat)
    requires 1 <= m
    ensures 0 <= e / m
  {
  }

  lemma {:induction false} TopBitFacts(e: nat)
    requires 1 <= e
    ensures IsPowerOfTwo(TopBit(e)) && TopBit(e) <= e < 2 * TopBit(e)
    ensures BitsAbove(e, TopBit(e) / 2) == 1
  {
    if e >= 2 { TopBitFacts(e / 2); }
    DivOne(e, TopBit(e));
  }

  lemma DivOne(e: nat, m: nat)
    requires 1 <= m <= e < 2 * m
    ensures e / m == 1
  {
  }

  lemma DivHalf(e: nat, m: nat)
    requires 1 <= m
    ensures e / m == 2 * (e / (2 * m)) + (e / m) % 2
  {
    var q, r := e / m, e % m;
    assert e == m * q + r && r < m;
    var h, bit := q / 2, q % 2;
    TwicePlusBit(m, h, bit);
    DivIs(e, 2 * m, h, m * bit + r);
  }

  lemma TwicePlusBit(m: nat, h: nat, bit: nat)
    requires bit < 2
    ensures m * (2 * h + bit) == (2 * m) * h + m * bit
    ensures m * bit == if bit == 0 then 0 else m
  {
    MulDistributes(m, 2 * h, bit);
    MulAssociates(m, 2, h);
  }

  /** Reading one more bit doubles what has been read and adds the bit. */
  lemma NextBit(e: nat, bitmask: nat)
    requires IsPowerOfTwo(bitmask)
    ensures BitsAbove(e, bitmask / 2) == 2 * BitsAbove(e, bitmask) + (e / bitmask) % 2
    ensures bitmask / 2 == 0 || IsPowerOfTwo(bitmask / 2)
    ensures BitsAbove(e, bitmask) <= e
  {
    DivHalf(e, bitmask);
    if bitmask > 1 { assert 2 * (bitmask / 2) == bitmask; }
  }

  /** A power of five below the integer limit has far fewer limbs than that. */
  lemma FewLimbs(n: Num, d: nat)
    requires n.Normal() && n.exp == 0 && n.Number() == Pow(5, d) && d < MAX_INT
    ensures |n.bigits| < MAX_INT
  {
    NormalBounds(n);
    var k := |n.bigits| - 1;
    BaseIsPowerOfTwo();
    PowMul(2, BITS, k);
    PowGrows(5, 8, d);
    assert Pow(2, 3) == 8;
    PowMul(2, 3, d);
    if BITS * k > 3 * d {
      PowStrict(3 * d, BITS * k);
    }
  }

  lemma {:induction false} PowGrows(a: nat, b: nat, e: nat)
    requires a <= b
    ensures Pow(a, e) <= Pow(b, e)
  {
    if e > 0 {
      PowGrows(a, b, e - 1);
      MulMonotone(a, b, Pow(a, e - 1));
      MulMonotone(Pow(a, e - 1), Pow(b, e - 1), b);
    }
  }

  lemma PowStrict(m: nat, n: nat)
    requires m < n
    ensures Pow(2, m) < Pow(2, n)
  {
    PowMonotone(2, m + 1, n);
    PowPositive(2, m);
  }

  /** The square fits into twice the limbs, so the last carry is zero. */
  lemma NothingLeft(s: seq<Limb>, n: seq<Limb>, sum: nat)
    requires |s| == 2 * |n| && Value(s) + Pow(BASE, |s|) * sum == Value(n) * Value(n)
    ensures sum == 0
  {
    ValueBound(n);
    PowAdd(BASE, |n|, |n|);
    SquareLess(Value(n), Pow(BASE, |n|));
    NoMultipleBelow(Value(s), Pow(BASE, |s|), sum, Value(n) * Value(n));
  }

  lemma SquareLess(v: nat, p: nat)
    requires v < p
    ensures v * v < p * p
  {
    MulMonotone(v, p, v);
    MulMonotone(v + 1, p, p);
  }

  lemma CrossUnroll(n: seq<Limb>, k: nat, i: nat, j: nat)
    requires i + j == k && i < |n| && j < |n|
    ensures CrossFrom(n, n, k, i) == n[i] * n[j] + CrossFrom(n, n, k, i + 1)
  {
    assert At(n, i) == n[i] && At(n, k - i) == n[j];
  }

  lemma NoMultipleBelow(a: nat, p: nat, sum: nat, w: nat)
    requires a + p * sum == w < p
    ensures sum == 0
  {
    if sum > 0 { MulMonotone(1, sum, p); }
  }

  const MAX_INT: nat := 0x8000_0000
  const LIMIT_128: nat := BASE * BASE * BASE * BASE

  /** The 128-bit accumulator does not overflow, and its carry stays small. */
  lemma SumFits(count: nat, start: nat, sum: nat)
    requires count < MAX_INT && start <= count * BASE
    requires sum <= start + count * ((BASE - 1) * (BASE - 1))
    ensures sum < LIMIT_128 && sum / BASE <= count * BASE
  {
    assert count * BASE + count * ((BASE - 1) * (BASE - 1)) <= count * (BASE * BASE);
  }

  /** Filing the lowest limb of the accumulator under position `k`. */
  lemma PlaceLimb(was: seq<Limb>, now: seq<Limb>, k: nat, n: seq<Limb>, start: nat, sum: nat)
    requires k < |was| && now == was[k := sum % BASE]
    requires Value(was[..k]) + Pow(BASE, k) * start == Accumulated(n, n, k)
    requires sum == start + CrossFrom(n, n, k, 0)
    ensures Value(now[..k + 1]) + Pow(BASE, k + 1) * (sum / BASE) == Accumulated(n, n, k + 1)
  {
    ValueSnoc(now, k);
    assert now[..k] == was[..k];
    var p, x := Pow(BASE, k), CrossFrom(n, n, k, 0);
    PowBase(k);
    calc {
      p * (sum % BASE) + (BASE * p) * (sum / BASE);
      { MulAssociates(p, BASE, sum / BASE); MulDistributes(p, sum % BASE, BASE * (sum / BASE)); }
      p * (sum % BASE + BASE * (sum / BASE));
      p * (start + x);
      { MulDistributes(p, start, x); }
      p * start + x * p;
    }
  }

  /** A 64-bit product of limbs plus a carry leaves a one-limb carry. */
  lemma ProductFits(b: Limb, v: Limb, carry: Limb)
    ensures (b * v + carry) / BASE < BASE && b * v + carry < BASE * BASE
    ensures b * v + carry == ((b * v + carry) / BASE) * BASE + (b * v + carry) % BASE
  {
    MulMonotone(b, BASE - 1, v);
    MulMonotone(v, BASE - 1, BASE - 1);
  }

  lemma PushStep(s: seq<Limb>, carry: nat)
    ensures
      var t := s + [carry % BASE];
      Value(s) + Pow(BASE, |s|) * carry == Value(t) + Pow(BASE, |t|) * (carry / BASE)
  {
    ValueAppend(s, [carry % BASE]);
    ValueOne(carry % BASE);
    PowBase(|s|);
    LimbOff(Pow(BASE, |s|), carry);
  }

  lemma LimbOff(p: nat, carry: nat)
    ensures p * carry == p * (carry % BASE) + (BASE * p) * (carry / BASE)
  {
    MulDistributes(p, carry % BASE, BASE * (carry / BASE));
    MulAssociates(p, BASE, carry / BASE);
  }

  lemma ScaledProduct(now: nat, was: nat, v: nat, p: nat)
    requires now == was * v
    ensures now * p == (was * p) * v
  {
    MulAssociates(was, v, p);
    MulAssociates(was, p, v);
  }

  lemma SplitWide(value: nat, half: nat)
    requires 1 <= half && value < half * half
    ensures value == (value / half) * half + value % half && value % half < half && 0 <= value / half < half
  {
    if value / half >= half { MulMonotone(half, value / half, half); }
  }

  /** The wide arithmetic never overflows: the new carry stays below the full width,
      with nothing to spare. */
  lemma WideFits(upper: nat, lower: nat, b: Limb, carry: nat, half: nat, spare: nat)
    requires 1 <= spare && half == BASE * spare && upper < half && lower < half && carry < half * half
    ensures
      var result := lower * b + carry % BASE;
      && 0 <= lower * b && 0 <= upper * b * spare
      && upper * b * spare + result / BASE + carry / BASE < half * half
  {
    WideProduct(lower, b, half);
    WideProduct(upper, b, half);
    WideLow(lower * b, carry % BASE, half, spare);
    WideHigh(upper * b, half, spare);
    WideCarry(carry, half, spare);
    WideSum(upper * b * spare, (lower * b + carry % BASE) / BASE, carry / BASE, half, spare);
  }

  /** Both widths attain the bound. */
  lemma WideTight(half: nat, spare: nat)
    requires (spare == 1 || spare == BASE) && half == BASE * spare
    ensures
      var upper, lower, b, carry := half - 1, half - 1, BASE - 1, half * half - 1;
      var result := lower * b + carry % BASE;
      upper * b * spare + result / BASE + carry / BASE == half * half - 1
  {
  }

  lemma WideProduct(x: nat, b: nat, half: nat)
    requires x < half && b < BASE
    ensures 0 <= x * b <= (half - 1) * (BASE - 1)
  {
    MulMonotone(b, BASE - 1, x);
    MulMonotone(x, half - 1, BASE - 1);
  }

  lemma WideLow(product: nat, low: nat, half: nat, spare: nat)
    requires 1 <= spare && half == BASE * spare && product <= (half - 1) * (BASE - 1) && low < BASE
    ensures (product + low) / BASE <= half - spare
  {
    assert product + low <= BASE * (half - spare);
  }

  lemma WideHigh(product: nat, half: nat, spare: nat)
    requires 1 <= spare && half == BASE * spare && product <= (half - 1) * (BASE - 1)
    ensures 0 <= product * spare <= (half - 1) * (half - spare)
  {
    MulMonotone(product, (half - 1) * (BASE - 1), spare);
    MulAssociates(half - 1, BASE - 1, spare);
    assert (BASE - 1) * spare == half - spare;
  }

  lemma WideCarry(carry: nat, half: nat, spare: nat)
    requires half == BASE * spare && carry < half * half
    ensures carry / BASE < half * spare
  {
    MulAssociates(half, spare, BASE);
    assert carry < BASE * (half * spare);
  }

  lemma WideSum(high: nat, low: nat, carry: nat, half: nat, spare: nat)
    requires 1 <= spare <= half
    requires high <= (half - 1) * (half - spare) && low <= half - spare && carry < half * spare
    ensures high + low + carry < half * half
  {
    MulDistributes(half - spare, half - 1, 1);
    MulDistributes(half, half - spare, spare);
  }

  lemma WideStep(value: nat, upper: nat, lower: nat, b: Limb, carry: nat, half: nat, spare: nat)
    requires half == BASE * spare && value == upper * half + lower
    ensures
      var result := lower * b + carry % BASE;
      b * value + carry == (upper * b * spare + result / BASE + carry / BASE) * BASE + result % BASE
  {
    var result := lower * b + carry % BASE;
    calc {
      b * value;
      { MulDistributes(b, upper * half, lower); }
      b * (upper * half) + b * lower;
      { MulAssociates(b, upper, half); MulAssociates(b * upper, BASE, spare); MulAssociates(b * upper, spare, BASE); }
      (b * upper * spare) * BASE + b * lower;
    }
  }

  /** Whole limbs of a shift go into the exponent. */
  lemma ShiftExponent(v: nat, e: nat, q: nat, s: nat, shift: nat)
    requires shift == q * BITS + s
    ensures (v * Pow(2, s)) * Pow(BASE, e + q) == (v * Pow(BASE, e)) * Pow(2, shift)
    ensures s == 0 ==> v * Pow(BASE, e + q) == (v * Pow(BASE, e)) * Pow(2, shift)
  {
    BaseIsPowerOfTwo();
    PowAdd(BASE, e, q);
    PowMul(2, BITS, q);
    PowAdd(2, s, BITS * q);
    var a, b, c := Pow(2, s), Pow(BASE, e), Pow(BASE, q);
    Rearrange(v, a, b, c);
    assert Pow(2, shift) == a * c;
  }
}
