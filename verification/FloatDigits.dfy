/** From a binary floating-point number `f * 2^e` to its digits: the numerator and
    denominator whose quotient is the number scaled by a power of ten, the correction of
    that power, and what the digits then denote. */
module FloatDigits {
  import opened Limbs
  import opened BigInteger
  import opened Decimal
  import opened Dragon

  // ---------- signed exponents ----------

  function Positive(x: int): nat {
    if x > 0 then x else 0
  }

  /** `b^x` for positive `x`; a negative exponent counts on the other side of an equation. */
  function Up(b: nat, x: int): (r: nat)
    requires 1 <= b
    ensures r >= 1
  {
    PowPositive(b, Positive(x));
    Pow(b, Positive(x))
  }

  /** `f * 2^e` as a fraction. */
  function Top(f: nat, e: int): nat {
    f * Up(2, e)
  }

  function Bottom(e: int): (r: nat)
    ensures r >= 1
  {
    Up(2, -e)
  }

  /** `n / d` times `10^x` is `top / bottom`. */
  predicate Represents(n: nat, d: nat, x: int, top: nat, bottom: nat) {
    (n * bottom) * Up(10, x) == (d * top) * Up(10, -x)
  }

  /** `top / bottom < 10^x`. */
  predicate Below(top: nat, bottom: nat, x: int) {
    top * Up(10, -x) < bottom * Up(10, x)
  }

  /** `top / bottom` in units of `10^place`, rounded half to even. */
  function RoundedAt(top: nat, bottom: nat, place: int): nat
    requires 1 <= bottom
  {
    PositiveProduct(bottom, Up(10, place));
    Rounded(top * Up(10, -place), bottom * Up(10, place))
  }

  lemma PositiveProduct(x: nat, y: nat)
    requires 1 <= x && 1 <= y
    ensures 1 <= x * y
  {
    MulMonotone(1, x, y);
  }

  /** Moving `j` powers of ten across. */
  lemma MoveTens(x: int, y: int, j: nat)
    requires x == y + j
    ensures Up(10, x) * Up(10, -y) == Pow(10, j) * (Up(10, y) * Up(10, -x))
  {
    assert Pow(10, 0) == 1;
    if y >= 0 {
      PowAdd(10, j, y);
    } else if x >= 0 {
      PowAdd(10, x, -y);
    } else {
      PowAdd(10, j, -x);
    }
  }

  lemma CancelRight(x: nat, y: nat, p: nat)
    requires 1 <= p && x * p == y * p
    ensures x == y
  {
    Cancel(x, y, p);
  }

  /** More digits before the point: the numerator grows, the power of ten falls. */
  lemma RepresentsDown(n: nat, d: nat, x: int, j: nat, top: nat, bottom: nat)
    requires Represents(n, d, x, top, bottom)
    ensures Represents(n * Pow(10, j), d, x - j, top, bottom)
  {
    MoveTens(x, x - j, j);
    ScaledNumerator(n, d, x, x - j, Pow(10, j), top, bottom);
  }

  lemma ScaledNumerator(n: nat, d: nat, x: int, y: int, p: nat, top: nat, bottom: nat)
    requires Represents(n, d, x, top, bottom)
    requires Up(10, x) * Up(10, -y) == p * (Up(10, y) * Up(10, -x))
    ensures Represents(n * p, d, y, top, bottom)
  {
    CrossDown(n, bottom, d * top, Up(10, x), Up(10, -y), Up(10, y), Up(10, -x), p);
  }

  lemma CrossDown(n: nat, bottom: nat, r: nat, a: nat, b: nat, c: nat, d: nat, p: nat)
    requires (n * bottom) * a == r * d && a * b == p * (c * d) && 1 <= d
    ensures ((n * p) * bottom) * c == r * b
  {
    var l := n * bottom;
    calc {
      ((l * p) * c) * d;
      { MulAssociates(l * p, c, d); MulAssociates(l, p, c * d); }
      l * (p * (c * d));
      l * (a * b);
      { MulAssociates(l, a, b); }
      (l * a) * b;
      (r * d) * b;
      { SwapLast(r, d, b); }
      (r * b) * d;
    }
    CancelRight((l * p) * c, r * b, d);
    SwapLast(n, bottom, p);
  }

  lemma SwapLast(x: nat, y: nat, z: nat)
    ensures (x * y) * z == (x * z) * y
  {
    MulAssociates(x, y, z);
    MulAssociates(x, z, y);
  }

  /** Fewer digits: the denominator grows, the power of ten rises. */
  lemma RepresentsUp(n: nat, d: nat, x: int, j: nat, top: nat, bottom: nat)
    requires Represents(n, d, x, top, bottom)
    ensures Represents(n, d * Pow(10, j), x + j, top, bottom)
  {
    MoveTens(x + j, x, j);
    ScaledDenominator(n, d, x, x + j, Pow(10, j), top, bottom);
  }

  lemma ScaledDenominator(n: nat, d: nat, x: int, y: int, p: nat, top: nat, bottom: nat)
    requires Represents(n, d, x, top, bottom)
    requires Up(10, y) * Up(10, -x) == p * (Up(10, x) * Up(10, -y))
    ensures Represents(n, d * p, y, top, bottom)
  {
    CrossUp(n * bottom, d, top, Up(10, x), Up(10, -x), Up(10, y), Up(10, -y), p);
  }

  lemma CrossUp(l: nat, d: nat, top: nat, a: nat, b: nat, g: nat, h: nat, p: nat)
    requires l * a == (d * top) * b && g * b == p * (a * h) && 1 <= a && 1 <= b
    ensures l * g == ((d * p) * top) * h
  {
    var r := d * top;
    calc {
      (l * g) * b;
      { MulAssociates(l, g, b); }
      l * (p * (a * h));
      { MulAssociates(p, a, h); SwapLast(p, a, h); MulAssociates(p, h, a); }
      l * ((p * h) * a);
      { MulAssociates(l, p * h, a); SwapLast(l, p * h, a); }
      (l * a) * (p * h);
      (r * b) * (p * h);
      { SwapLast(r, b, p * h); MulAssociates(r, p, h); }
      ((r * p) * h) * b;
    }
    CancelRight(l * g, (r * p) * h, b);
    SwapLast(d, top, p);
  }

  /** Below `10^(x+1)` the quotient is below ten. */
  lemma QuotientBelowTen(n: nat, d: nat, x: int, top: nat, bottom: nat)
    requires Represents(n, d, x, top, bottom) && Below(top, bottom, x + 1) && 1 <= d && 1 <= bottom
    ensures n < 10 * d
  {
    RepresentsUp(n, d, x, 1, top, bottom);
    assert Pow(10, 1) == 10;
    BelowCross(n, d * 10, top, bottom, Up(10, x + 1), Up(10, -(x + 1)));
  }

  /** A fraction below `g / h` has a numerator below its denominator, scaled likewise. */
  lemma BelowCross(n: nat, d: nat, top: nat, bottom: nat, g: nat, h: nat)
    requires (n * bottom) * g == (d * top) * h && top * h < bottom * g && 1 <= d
    ensures n < d
  {
    MulAssociates(n, bottom, g);
    MulAssociates(d, top, h);
    MulMonotone(top * h + 1, bottom * g, d);
    MulDistributes(d, top * h, 1);
    if n >= d { MulMonotone(d, n, bottom * g); }
  }

  // ---------- rounding a fraction does not depend on how it is scaled ----------

  lemma SameRatio(n: nat, d: nat, n': nat, d': nat)
    requires 1 <= d && 1 <= d' && n * d' == n' * d
    ensures Rounded(n, d) == Rounded(n', d')
  {
    var q, r, q', r' := n / d, n % d, n' / d', n' % d';
    QuotientForm(n, d);
    QuotientForm(n', d');
    SameQuotient(q, r, d, q', r', d');
    CompareHalves(r, d, r', d');
  }

  lemma SameQuotient(q: nat, r: nat, d: nat, q': nat, r': nat, d': nat)
    requires r < d && r' < d' && (q * d + r) * d' == (q' * d' + r') * d
    ensures q == q' && r * d' == r' * d
  {
    MulDistributes(d', q * d, r);
    MulDistributes(d, q' * d', r');
    MulAssociates(q, d, d');
    MulAssociates(q', d', d);
    var p := d * d';
    ScaleBelow(r, d, d');
    ScaleBelow(r', d', d);
    UniqueMultiple(q, q', p, r * d', r' * d);
  }

  lemma ScaleBelow(r: nat, d: nat, p: nat)
    requires r < d && 1 <= p
    ensures r * p < d * p
  {
    MulMonotone(r + 1, d, p);
    MulDistributes(p, r, 1);
  }

  lemma UniqueMultiple(q: nat, q': nat, p: nat, r: nat, r': nat)
    requires q * p + r == q' * p + r' && r < p && r' < p
    ensures q == q' && r == r'
  {
    if q < q' { MulMonotone(q + 1, q', p); MulDistributes(p, q, 1); }
    if q' < q { MulMonotone(q' + 1, q, p); MulDistributes(p, q', 1); }
  }

  lemma CompareHalves(r: nat, d: nat, r': nat, d': nat)
    requires 1 <= d && 1 <= d' && r * d' == r' * d
    ensures 2 * r > d <==> 2 * r' > d'
    ensures 2 * r == d <==> 2 * r' == d'
  {
    MulAssociates(2, r, d');
    MulAssociates(2, r', d);
    SameOrder(2 * r, d, 2 * r', d');
  }

  lemma SameOrder(x: nat, d: nat, x': nat, d': nat)
    requires 1 <= d && 1 <= d' && x * d' == x' * d
    ensures x > d <==> x' > d'
    ensures x == d <==> x' == d'
  {
    if x > d { ScaleBelow(d, x, d'); }
    if x < d { ScaleBelow(x, d, d'); }
    if x' > d' { ScaleBelow(d', x', d); }
    if x' < d' { ScaleBelow(x', d', d); }
  }

  /** The rounded quotient is the rounded number. */
  lemma RoundedAgrees(n: nat, d: nat, place: int, top: nat, bottom: nat)
    requires Represents(n, d, place, top, bottom) && 1 <= d && 1 <= bottom
    ensures Rounded(n, d) == RoundedAt(top, bottom, place)
  {
    PositiveProduct(bottom, Up(10, place));
    MulAssociates(n, bottom, Up(10, place));
    MulAssociates(d, top, Up(10, -place));
    SameRatio(n, d, top * Up(10, -place), bottom * Up(10, place));
  }

  lemma RoundedLower(n: nat, d: nat, x: int, j: nat, top: nat, bottom: nat)
    requires Represents(n, d, x, top, bottom) && 1 <= d && 1 <= bottom
    ensures Rounded(n * Pow(10, j), d) == RoundedAt(top, bottom, x - j)
  {
    RepresentsDown(n, d, x, j, top, bottom);
    RoundedAgrees(n * Pow(10, j), d, x - j, top, bottom);
  }

  lemma RoundedHigher(n: nat, d: nat, m: nat, x: int, j: nat, top: nat, bottom: nat)
    requires Represents(n, d, x, top, bottom) && m == d * Pow(10, j) && 1 <= d && 1 <= bottom
    ensures 1 <= m && Rounded(n, m) == RoundedAt(top, bottom, x + j)
  {
    DenominatorGrows(n, d, m, x, j, top, bottom);
    RoundedAgrees(n, m, x + j, top, bottom);
  }

  lemma DenominatorGrows(n: nat, d: nat, m: nat, x: int, j: nat, top: nat, bottom: nat)
    requires Represents(n, d, x, top, bottom) && m == d * Pow(10, j) && 1 <= d
    ensures 1 <= m && Represents(n, m, x + j, top, bottom)
  {
    RepresentsUp(n, d, x, j, top, bottom);
    PowPositive(10, j);
    PositiveProduct(d, Pow(10, j));
  }

  // ---------- the operands ----------

  /** Extra bits that make half a unit in the last place an integer. */
  function ShiftOf(closer: bool): nat {
    if closer then 2 else 1
  }

  /** Numerator, denominator and the half-unit above the value. */
  method SetUp(f: nat, e: int, exp10: int, closer: bool)
    returns (numerator: Bigint, denominator: Bigint, upper: Bigint)
    requires 1 <= f < BASE * BASE * (BASE * BASE) && exp10 < MAX_INT && -exp10 < MAX_INT
    requires e >= 0 ==> exp10 >= 0
    ensures fresh(numerator) && fresh(denominator) && fresh(upper)
    ensures numerator != denominator && numerator != upper && denominator != upper
    ensures numerator.View().Normal() && denominator.View().Normal() && upper.View().Normal()
    ensures Represents(numerator.View().Number(), denominator.View().Number(), exp10, Top(f, e), Bottom(e))
    ensures numerator.View().Number() == 2 * f * upper.View().Number()
    ensures e >= 0 ==> numerator.exp == (e + ShiftOf(closer)) / BITS && denominator.exp == exp10 / BITS
    ensures e < 0 ==> numerator.exp <= denominator.exp || denominator.bigits[0] != 0
  {
    numerator := new Bigint();
    denominator := new Bigint();
    upper := new Bigint();
    if e >= 0 {
      SetUpInteger(numerator, denominator, upper, f, e, exp10, closer);
    } else if exp10 < 0 {
      SetUpSmall(numerator, denominator, upper, f, e, exp10, closer);
    } else {
      SetUpMixed(numerator, denominator, upper, f, e, exp10, closer);
    }
  }

  /** A number without fractional bits. */
  method SetUpInteger(numerator: Bigint, denominator: Bigint, upper: Bigint, f: nat, e: nat, exp10: nat, closer: bool)
    requires numerator != denominator && numerator != upper && denominator != upper
    requires 1 <= f && exp10 < MAX_INT
    modifies numerator, denominator, upper
    ensures numerator.View().Normal() && denominator.View().Normal() && upper.View().Normal()
    ensures Represents(numerator.View().Number(), denominator.View().Number(), exp10, Top(f, e), Bottom(e))
    ensures numerator.View().Number() == 2 * f * upper.View().Number()
    ensures numerator.exp == (e + ShiftOf(closer)) / BITS && denominator.exp == exp10 / BITS
  {
    var shift := ShiftOf(closer);
    numerator.Assign(f);
    numerator.ShiftLeft(e + shift);
    upper.Assign(1);
    upper.ShiftLeft(if closer then e + 1 else e);
    denominator.AssignPow10(exp10);
    denominator.ShiftLeft(shift);
    IntegerOperands(f, e, exp10, shift);
  }

  /** A number with fractional bits and a negative power of ten. */
  method SetUpSmall(numerator: Bigint, denominator: Bigint, upper: Bigint, f: nat, e: int, exp10: int, closer: bool)
    requires numerator != denominator && numerator != upper && denominator != upper
    requires 1 <= f < BASE * BASE * (BASE * BASE) && e < 0 && exp10 < 0 && -exp10 < MAX_INT
    modifies numerator, denominator, upper
    ensures numerator.View().Normal() && denominator.View().Normal() && upper.View().Normal()
    ensures Represents(numerator.View().Number(), denominator.View().Number(), exp10, Top(f, e), Bottom(e))
    ensures numerator.View().Number() == 2 * f * upper.View().Number()
    ensures denominator.bigits[0] != 0
  {
    var shift := ShiftOf(closer);
    numerator.AssignPow10(-exp10);
    upper.AssignPow10(-exp10);
    if closer { upper.ShiftLeft(1); }
    numerator.MultiplyWide(f, BASE * BASE, BASE);
    numerator.ShiftLeft(shift);
    denominator.Assign(1);
    denominator.ShiftLeft(shift - e);
    SmallOperands(f, e, exp10, shift);
    PowerHasLowestLimb(denominator.View(), shift - e);
  }

  /** A number with fractional bits and a power of ten that is not negative. */
  method SetUpMixed(numerator: Bigint, denominator: Bigint, upper: Bigint, f: nat, e: int, exp10: nat, closer: bool)
    requires numerator != denominator && numerator != upper && denominator != upper
    requires 1 <= f && e < 0 && exp10 < MAX_INT
    modifies numerator, denominator, upper
    ensures numerator.View().Normal() && denominator.View().Normal() && upper.View().Normal()
    ensures Represents(numerator.View().Number(), denominator.View().Number(), exp10, Top(f, e), Bottom(e))
    ensures numerator.View().Number() == 2 * f * upper.View().Number()
    ensures numerator.exp <= denominator.exp
  {
    var shift := ShiftOf(closer);
    numerator.Assign(f);
    numerator.ShiftLeft(shift);
    denominator.AssignPow10(exp10);
    denominator.ShiftLeft(shift - e);
    upper.Assign(if closer then 2 else 1);
    MixedOperands(f, e, exp10, shift);
  }

  lemma IntegerOperands(f: nat, e: nat, x: nat, shift: nat)
    requires shift in {1, 2}
    ensures Represents(f * Pow(2, e + shift), Pow(10, x) * Pow(2, shift), x, Top(f, e), Bottom(e))
    ensures f * Pow(2, e + shift) == 2 * f * (1 * Pow(2, if shift == 2 then e + 1 else e))
  {
    PowAdd(2, e, shift);
    var a, b, t := Pow(2, e), Pow(2, shift), Pow(10, x);
    assert Pow(10, 0) == 1 && Pow(2, 0) == 1;
    MulAssociates(f, a, b);
    MulAssociates(t, b, f * a);
    SwapLast(t, b, f * a);
    MulAssociates(f * a, b, t);
    assert (f * (a * b)) * t == (t * b) * (f * a);
    HalfUnit(f, e, shift);
  }

  lemma HalfUnit(f: nat, e: nat, shift: nat)
    requires shift in {1, 2}
    ensures f * Pow(2, e + shift) == 2 * f * (1 * Pow(2, if shift == 2 then e + 1 else e))
  {
    var u := Pow(2, if shift == 2 then e + 1 else e);
    assert Pow(2, e + shift) == 2 * u;
    MulAssociates(f, 2, u);
  }

  lemma SmallOperands(f: nat, e: int, x: int, shift: nat)
    requires e < 0 && x < 0 && shift in {1, 2}
    ensures Represents((Pow(10, -x) * f) * Pow(2, shift), 1 * Pow(2, shift - e), x, Top(f, e), Bottom(e))
    ensures (Pow(10, -x) * f) * Pow(2, shift) == 2 * f * (if shift == 2 then Pow(10, -x) * Pow(2, 1) else Pow(10, -x))
  {
    PowAdd(2, shift, -e);
    assert Pow(2, 0) == 1 && Pow(10, 0) == 1 && Pow(2, 1) == 2 && Pow(2, 2) == 4;
    SmallCross(Pow(10, -x), f, Pow(2, shift), Pow(2, -e));
    SmallHalfUnit(Pow(10, -x), f);
  }

  lemma SmallCross(t: nat, f: nat, a: nat, b: nat)
    ensures ((t * f) * a) * b == ((a * b) * f) * t
  {
    MulAssociates(t * f, a, b);
    MulAssociates(a * b, f, t);
  }

  lemma SmallHalfUnit(t: nat, f: nat)
    ensures (t * f) * 2 == 2 * f * t
    ensures (t * f) * 4 == 2 * f * (t * 2)
  {
    MulAssociates(2, f, t);
    MulAssociates(2 * f, t, 2);
  }

  lemma MixedOperands(f: nat, e: int, x: nat, shift: nat)
    requires e < 0 && shift in {1, 2}
    ensures Represents(f * Pow(2, shift), Pow(10, x) * Pow(2, shift - e), x, Top(f, e), Bottom(e))
    ensures f * Pow(2, shift) == 2 * f * (if shift == 2 then 2 else 1)
  {
    PowAdd(2, shift, -e);
    assert Pow(2, 0) == 1 && Pow(10, 0) == 1 && Pow(2, 1) == 2 && Pow(2, 2) == 4;
    MixedCross(Pow(10, x), f, Pow(2, shift), Pow(2, -e));
  }

  lemma MixedCross(t: nat, f: nat, a: nat, b: nat)
    ensures ((f * a) * b) * t == (t * (a * b)) * f
  {
    MulAssociates(f, a, b);
    MulAssociates(t, a * b, f);
  }

  /** A power of two is stored as a single limb. */
  lemma PowerHasLowestLimb(n: Num, k: nat)
    requires n.Normal() && n.Number() == Pow(2, k) && n.exp == k / BITS
    ensures n.bigits[0] != 0
  {
    var q, s := k / BITS, k % BITS;
    BaseAsPower(q);
    PowAdd(2, s, BITS * q);
    PowPositive(BASE, q);
    CancelRight(Value(n.bigits), Pow(2, s), Pow(BASE, q));
    SmallPower(s);
    PowPositive(2, s);
    LowLimbIsAll(n.bigits[0], Value(n.bigits[1..]), Pow(2, s));
  }

  lemma BaseAsPower(q: nat)
    ensures Pow(BASE, q) == Pow(2, BITS * q)
  {
    Carries.BaseIsPowerOfTwo();
    PowMul(2, BITS, q);
  }

  lemma SmallPower(s: nat)
    requires s < BITS
    ensures Pow(2, s) < BASE
  {
    Carries.BaseIsPowerOfTwo();
    PowMonotone(2, s, BITS - 1);
    PowPositive(2, BITS - 1);
  }

  lemma LowLimbIsAll(low: Limb, high: nat, v: nat)
    requires v == low + BASE * high && 1 <= v < BASE
    ensures low != 0
  {
  }

  // ---------- correcting the power of ten ----------

  /** Even half a unit above the number stays below `10^x`, or reaches it exactly while
      `f` is odd: the estimate `x` is one too large. */
  predicate TooLarge(f: nat, e: int, x: int) {
    var above, limit := (2 * f + 1) * (Up(2, e) * Up(10, -x)), 2 * (Bottom(e) * Up(10, x));
    above < limit || (above == limit && f % 2 != 0)
  }

  method Fixup(numerator: Bigint, denominator: Bigint, upper: Bigint, f: nat, ghost e: int, exp10: int)
    returns (exp10': int)
    requires numerator != denominator && numerator != upper && 1 <= f
    requires numerator.View().Normal() && denominator.View().Normal() && upper.View().Normal()
    requires Represents(numerator.View().Number(), denominator.View().Number(), exp10, Top(f, e), Bottom(e))
    requires numerator.View().Number() == 2 * f * upper.View().Number()
    modifies numerator
    ensures exp10' == if TooLarge(f, e, exp10) then exp10 - 1 else exp10
    ensures numerator.View().Number() == old(numerator.View()).Number() * Pow(10, exp10 - exp10')
    ensures numerator.View().Normal() && numerator.exp == old(numerator.exp)
    ensures TooLarge(f, e, exp10) ==> old(numerator.View()).Number() < denominator.View().Number()
  {
    ghost var n, d, u := numerator.View().Number(), denominator.View().Number(), upper.View().Number();
    NormalPositive(denominator.View());
    NormalPositive(upper.View());
    FixupDecides(f, e, exp10, n, d, u);
    assert Pow(10, 0) == 1 && Pow(10, 1) == 10;
    var result := Bigint.AddCompare(numerator, upper, denominator);
    var even := if f % 2 == 0 then 1 else 0;
    exp10' := exp10;
    if result + even <= 0 {
      exp10' := exp10' - 1;
      numerator.Multiply(10);
    }
  }

  lemma FixupDecides(f: nat, e: int, x: int, n: nat, d: nat, u: nat)
    requires Represents(n, d, x, Top(f, e), Bottom(e)) && n == 2 * f * u && 1 <= f && 1 <= d && 1 <= u
    ensures TooLarge(f, e, x) <==> n + u < d || (n + u == d && f % 2 != 0)
  {
    var g, h, b, two := Up(10, x), Up(10, -x), Bottom(e), Up(2, e);
    PositiveProduct(b, g);
    PositiveProduct(two, h);
    UnitCross(f, u, d, two, b, g, h);
    SameOrder2((2 * f + 1) * (two * h), 2 * (b * g), (2 * f + 1) * u, d, two * h, u, b * g);
    MulDistributes(u, 2 * f, 1);
  }

  /** One half-unit, cross-multiplied. */
  lemma UnitCross(f: nat, u: nat, d: nat, two: nat, b: nat, g: nat, h: nat)
    requires 1 <= f && ((2 * f * u) * b) * g == (d * (f * two)) * h
    ensures u * (2 * (b * g)) == d * (two * h)
  {
    calc {
      (u * (2 * (b * g))) * f;
      { MulAssociates(u, 2, b * g); SwapLast(u * 2, b * g, f); }
      ((u * 2) * f) * (b * g);
      { SwapLast(u, 2, f); assert (u * f) * 2 == 2 * f * u; MulAssociates(2 * f * u, b, g); }
      ((2 * f * u) * b) * g;
      (d * (f * two)) * h;
      { MulAssociates(d, f, two); SwapLast(d, f, two); MulAssociates(d * two, f, h); SwapLast(d * two, f, h); MulAssociates(d, two, h); }
      (d * (two * h)) * f;
    }
    CancelRight(u * (2 * (b * g)), d * (two * h), f);
  }

  /** `k` half-units against the denominator, in either scale. */
  lemma SameOrder2(x: nat, limit: nat, x': nat, d: nat, unit: nat, u: nat, bg: nat)
    requires exists k: nat :: x == k * unit && x' == k * u
    requires limit == 2 * bg && 1 <= unit && 1 <= u && 1 <= d && 1 <= bg && u * limit == d * unit
    ensures x < limit <==> x' < d
    ensures x == limit <==> x' == d
  {
    var k: nat :| x == k * unit && x' == k * u;
    MulAssociates(k, unit, d);
    MulAssociates(k, u, limit);
    assert x * d == x' * limit;
    SameOrder(x, limit, x', d);
  }

  // ---------- all of it ----------

  datatype Outcome = TooBig | Digits(buf: seq<char>, exp10: int)

  /** The power of ten that is used in the end. */
  function Corrected(f: nat, e: int, exp10: int, fixup: bool): int {
    if fixup && TooLarge(f, e, exp10) then exp10 - 1 else exp10
  }

  /** The correction leaves the right power of ten, up to half a unit: the number is below
      the next one, and half a unit above the number reaches this one. */
  lemma CorrectedIsRight(f: nat, e: int, exp10: int)
    requires Below(Top(f, e), Bottom(e), exp10 + 1) && !Below(Top(f, e), Bottom(e), exp10 - 1)
    ensures
      var y := Corrected(f, e, exp10, true);
      && Below(Top(f, e), Bottom(e), y + 1)
      && (2 * f + 1) * (Up(2, e) * Up(10, -y)) >= 2 * (Bottom(e) * Up(10, y))
  {
    if TooLarge(f, e, exp10) {
      TooLargeIsBelow(f, e, exp10);
      if TooLarge(f, e, exp10 - 1) { TooLargeIsBelow(f, e, exp10 - 1); }
    }
  }

  /** The estimate is too large exactly when `10^x`, rounded to a multiple of `2^e` with
      ties to even, is a number above `f * 2^e`. */
  lemma TooLargeExactly(f: nat, e: int, x: int)
    ensures 1 <= Up(2, e) * Up(10, -x)
    ensures TooLarge(f, e, x) <==> Rounded(Bottom(e) * Up(10, x), Up(2, e) * Up(10, -x)) > f
  {
    var n, d := Bottom(e) * Up(10, x), Up(2, e) * Up(10, -x);
    PositiveProduct(Up(2, e), Up(10, -x));
    QuotientForm(n, d);
    HalfWay(f, n / d, n % d, n, d);
  }

  lemma HalfWay(f: nat, q: nat, r: nat, n: nat, d: nat)
    requires n == q * d + r && r < d
    ensures
      var rounded := if 2 * r > d || (2 * r == d && q % 2 != 0) then q + 1 else q;
      rounded > f <==> (2 * f + 1) * d < 2 * n || ((2 * f + 1) * d == 2 * n && f % 2 != 0)
  {
    MulDistributes(d, 2 * f, 1);
    MulAssociates(2, f, d);
    MultiplesOrdered(f, q, d);
    MultiplesOrdered(q, f, d);
    HalfWayBetween(f, q, f * d, q * d, r, d);
  }

  lemma MultiplesOrdered(x: nat, y: nat, d: nat)
    ensures x < y ==> x * d + d <= y * d
  {
    if x < y {
      MulMonotone(x + 1, y, d);
      MulDistributes(d, x, 1);
    }
  }

  lemma HalfWayBetween(f: nat, q: nat, fd: nat, qd: nat, r: nat, d: nat)
    requires r < d && (q == f ==> qd == fd)
    requires (f < q ==> fd + d <= qd) && (q < f ==> qd + d <= fd)
    ensures
      var rounded := if 2 * r > d || (2 * r == d && q % 2 != 0) then q + 1 else q;
      rounded > f <==> 2 * fd + d < 2 * (qd + r) || (2 * fd + d == 2 * (qd + r) && f % 2 != 0)
  {
  }

  lemma TooLargeIsBelow(f: nat, e: int, x: int)
    requires TooLarge(f, e, x)
    ensures Below(Top(f, e), Bottom(e), x)
  {
    PositiveProduct(Up(2, e), Up(10, -x));
    MulAssociates(f, Up(2, e), Up(10, -x));
    HalfUnitAbove(f, Up(2, e) * Up(10, -x));
  }

  /** The characters spell the number `top / bottom`, rounded half to even at the last
      of `k` digits below `10^(y + 1)`, at the place given. */
  ghost predicate DenotesNumber(buf: seq<char>, exp10: int, top: nat, bottom: nat, y: int, k: int, fixedPoint: bool)
    requires 1 <= bottom
  {
    var place := y - (k - 1);
    var rounded := RoundedAt(top, bottom, place);
    if k <= 0 then
      |buf| == 1 && exp10 == place && Spelled(buf) == rounded
    else if rounded < Pow(10, k) then
      |buf| == k && exp10 == place && Spelled(buf) == rounded
    else if fixedPoint then
      |buf| == k + 1 && exp10 == place && Spelled(buf) == rounded
    else
      |buf| == k && exp10 == place + 1 && 10 * Spelled(buf) == rounded
  }

  /** The number is one of the powers of ten `10^y .. 10^(y - k + 1)`, and its numerator
      was shifted by more whole limbs than its denominator. */
  ghost predicate Misprinted(f: nat, e: int, x: int, shift: nat, y: int, k: int) {
    && 0 <= e && 0 <= x && 0 <= y && (e + shift) / BITS > x / BITS
    && exists j :: 0 <= j < k && PowerAt(f, e, y, j)
  }

  predicate PowerAt(f: nat, e: nat, y: nat, j: nat) {
    (f * Pow(2, e)) * Pow(10, j) == Pow(10, y)
  }

  /** The digits of `f * 2^e`, for an estimate `exp10` of its decimal exponent that is
      right or one too large, and a number of digits that is not negative: always the
      number itself, rounded half to even at the last place asked for, which in fixed
      notation is `numDigits` places after the decimal point; and in plain digits exactly
      unless the number is one of the powers of ten named above. */
  method FormatFixed(f: nat, e: int, exp10: int, numDigits: nat, closer: bool, fixup: bool, fixedPoint: bool)
    returns (r: Outcome)
    requires 1 <= f < BASE * BASE * (BASE * BASE) && exp10 < MAX_INT && -exp10 < MAX_INT
    requires e >= 0 ==> exp10 >= 0
    requires Below(Top(f, e), Bottom(e), exp10 + 1)
    ensures fixup && fixedPoint && r.Digits? ==>
      r.exp10 == 0 - numDigits && Spelled(r.buf) == RoundedAt(Top(f, e), Bottom(e), 0 - numDigits)
    ensures
      var y := Corrected(f, e, exp10, fixup);
      r.TooBig? <==> fixup && fixedPoint && y >= 0 && numDigits + y + 1 >= MAX_INT
    ensures r.Digits? ==>
      var y := Corrected(f, e, exp10, fixup);
      var k := if fixup && fixedPoint then numDigits + y + 1 else numDigits;
      && DenotesNumber(r.buf, r.exp10, Top(f, e), Bottom(e), y, k, fixedPoint)
      && (AllDigits(r.buf) <==> !Misprinted(f, e, exp10, ShiftOf(closer), y, k - 1))
  {
    var numerator, denominator, x := Prepare(f, e, exp10, closer, fixup);
    var count: int := numDigits;
    if fixup && fixedPoint {
      if x + 1 > 0 && count > MAX_INT - 1 - (x + 1) { return TooBig; }
      count := count + (x + 1);
    }
    var buf, place := GenerateDigits(numerator, denominator, count, x, fixedPoint, Top(f, e), Bottom(e));
    if fixup && fixedPoint { InFixedNotation(buf, place, Top(f, e), Bottom(e), x, numDigits); }
    r := Digits(buf, place);
  }

  /** Operands and power of ten after the correction. */
  method Prepare(f: nat, e: int, exp10: int, closer: bool, fixup: bool)
    returns (numerator: Bigint, denominator: Bigint, x: int)
    requires 1 <= f < BASE * BASE * (BASE * BASE) && exp10 < MAX_INT && -exp10 < MAX_INT
    requires e >= 0 ==> exp10 >= 0
    requires Below(Top(f, e), Bottom(e), exp10 + 1)
    ensures fresh(numerator) && fresh(denominator) && numerator != denominator
    ensures x == Corrected(f, e, exp10, fixup) && Operands(numerator.View(), denominator.View())
    ensures Represents(numerator.View().Number(), denominator.View().Number(), x, Top(f, e), Bottom(e))
    ensures forall k :: Misprints(numerator.View(), denominator.View(), k) <==>
                        Misprinted(f, e, exp10, ShiftOf(closer), x, k)
  {
    var upper;
    numerator, denominator, upper := SetUp(f, e, exp10, closer);
    ghost var n, d := numerator.View(), denominator.View();
    NormalPositive(d);
    QuotientBelowTen(n.Number(), d.Number(), exp10, Top(f, e), Bottom(e));
    x := exp10;
    assert Pow(10, 0) == 1 && Pow(10, 1) == 10;
    if fixup {
      x := Fixup(numerator, denominator, upper, f, e, exp10);
    }
    RepresentsDown(n.Number(), d.Number(), exp10, exp10 - x, Top(f, e), Bottom(e));
    ghost var now := numerator.View();
    forall k ensures Misprints(now, d, k) <==> Misprinted(f, e, exp10, ShiftOf(closer), x, k) {
      SetUpMisprints(f, e, exp10, ShiftOf(closer), n, now, d, x, k);
    }
  }

  /** Digits that count from the decimal point end `numDigits` places after it. */
  lemma InFixedNotation(buf: seq<char>, exp10: int, top: nat, bottom: nat, y: int, numDigits: nat)
    requires 1 <= bottom && DenotesNumber(buf, exp10, top, bottom, y, numDigits + (y + 1), true)
    ensures exp10 == 0 - numDigits && Spelled(buf) == RoundedAt(top, bottom, 0 - numDigits)
  {
  }

  /** The digits from operands that represent the number. */
  method GenerateDigits(numerator: Bigint, denominator: Bigint, count: int, x: int, fixedPoint: bool,
                        ghost top: nat, ghost bottom: nat)
    returns (buf: seq<char>, place: int)
    requires numerator != denominator && Operands(numerator.View(), denominator.View()) && 1 <= bottom
    requires Represents(numerator.View().Number(), denominator.View().Number(), x, top, bottom)
    modifies numerator, denominator
    ensures DenotesNumber(buf, place, top, bottom, x, count, fixedPoint)
    ensures AllDigits(buf) <==> !Misprints(old(numerator.View()), old(denominator.View()), count - 1)
  {
    ghost var n, d := numerator.View().Number(), denominator.View().Number();
    NormalPositive(denominator.View());
    if count <= 0 {
      RoundedHigher(n, d, d * Pow(10, 1 - count), x, 1 - count, top, bottom);
      buf, place := NoDigits(numerator, denominator, count, x);
    } else {
      RoundedLower(n, d, x, count - 1, top, bottom);
      buf, place := FixedDigits(numerator, denominator, count, x, fixedPoint);
    }
  }

  // ---------- which numbers are misprinted ----------

  lemma PowerAtExactly(f: nat, e: nat, y: nat, j: nat, n: nat, d: nat)
    requires Represents(n, d, y, Top(f, e), Bottom(e)) && 1 <= f && 1 <= n
    ensures n * Pow(10, j) == d <==> PowerAt(f, e, y, j)
  {
    assert Pow(2, 0) == 1 && Pow(10, 0) == 1;
    PowPositive(2, e);
    PositiveProduct(f, Pow(2, e));
    EqualRatios(n, d, f * Pow(2, e), Pow(10, y), Pow(10, j));
  }

  lemma EqualRatios(n: nat, d: nat, top: nat, q: nat, p: nat)
    requires n * q == d * top && 1 <= n && 1 <= top
    ensures n * p == d <==> top * p == q
  {
    SwapLast(n, p, top);
    MulAssociates(n, top, p);
    if n * p == d { CancelRight(top * p, q, n); }
    if top * p == q { CancelRight(n * p, d, top); }
  }

  /** A number of at least one is not below `10^0`. */
  lemma AtLeastOne(f: nat, e: nat, n: nat, d: nat)
    requires Represents(n, d, 0, Top(f, e), Bottom(e)) && 1 <= f
    ensures n >= d
  {
    assert Pow(2, 0) == 1 && Pow(10, 0) == 1;
    PowPositive(2, e);
    PositiveProduct(f, Pow(2, e));
    assert n == d * Top(f, e);
    MulMonotone(1, Top(f, e), d);
  }

  lemma SetUpMisprints(f: nat, e: int, x: int, shift: nat, n: Num, now: Num, d: Num, y: int, k: int)
    requires 1 <= f && n.Normal() && d.Normal() && now.Normal() && now.exp == n.exp
    requires Represents(n.Number(), d.Number(), x, Top(f, e), Bottom(e))
    requires Represents(now.Number(), d.Number(), y, Top(f, e), Bottom(e))
    requires y == x || (y == x - 1 && n.Number() < d.Number())
    requires e >= 0 ==> x >= 0 && n.exp == (e + shift) / BITS && d.exp == x / BITS
    requires e < 0 ==> n.exp <= d.exp || d.bigits[0] != 0
    ensures Misprints(now, d, k) <==> Misprinted(f, e, x, shift, y, k)
  {
    NormalPositive(now);
    if e < 0 {
      LowestLimbDecides(now, d, k);
    } else {
      if x == 0 { AtLeastOne(f, e, n.Number(), d.Number()); }
      forall j | 0 <= j < k
        ensures MissedAt(now, d, j) <==> now.exp > d.exp && PowerAt(f, e, y, j)
      {
        PowerAtExactly(f, e, y, j, now.Number(), d.Number());
      }
    }
  }

  // ---------- and which never are ----------

  lemma {:induction false} PowerOfFiveOdd(m: nat)
    ensures Pow(5, m) % 2 == 1
  {
    if m > 0 { PowerOfFiveOdd(m - 1); }
  }

  /** A binary number that is a power of ten `10^m` has at most `m` factors of two in its
      exponent and the others, with `5^m`, in its significand. */
  lemma PowerOfTenShape(f: nat, e: nat, m: nat)
    requires f * Pow(2, e) == Pow(10, m)
    ensures e <= m && f == Pow(5, m) * Pow(2, m - e)
  {
    PowProduct(5, 2, m);
    if e > m {
      PowAdd(2, e - m, m);
      MulAssociates(f, Pow(2, e - m), Pow(2, m));
      PowPositive(2, m);
      CancelRight(f * Pow(2, e - m), Pow(5, m), Pow(2, m));
      PowerOfFiveOdd(m);
      MulAssociates(f, 2, Pow(2, e - m - 1));
      MulAssociates(2, f, Pow(2, e - m - 1));
      OddIsNotTwice(Pow(5, m), f * Pow(2, e - m - 1));
    }
    PowAdd(2, m - e, e);
    MulAssociates(Pow(5, m), Pow(2, m - e), Pow(2, e));
    PowPositive(2, e);
    CancelRight(f, Pow(5, m) * Pow(2, m - e), Pow(2, e));
  }

  lemma OddIsNotTwice(v: nat, h: nat)
    requires v % 2 == 1
    ensures v != 2 * h
  {
  }

  /** Dropping trailing powers of ten. */
  lemma DropTens(f: nat, e: nat, y: nat, j: nat)
    requires PowerAt(f, e, y, j) && 1 <= f
    ensures j <= y && f * Pow(2, e) == Pow(10, y - j)
  {
    var v := f * Pow(2, e);
    PowPositive(2, e);
    PositiveProduct(f, Pow(2, e));
    PowPositive(10, j);
    MulMonotone(1, v, Pow(10, j));
    PowPositive(10, y);
    if j > y { PowMonotone(10, y + 1, j); }
    PowAdd(10, y - j, j);
    CancelRight(v, Pow(10, y - j), Pow(10, j));
  }

  /** A misprinted number is `10^m` with `m >= 30`, so its significand is at least
      `5^30`, and at most `10^31` unless it is at least `5^62`. */
  lemma MisprintedSignificands(f: nat, e: int, x: int, shift: nat, y: int, k: int)
    requires Misprinted(f, e, x, shift, y, k) && 1 <= f && y <= x && shift <= 2
    ensures Pow(5, 30) <= f
    ensures f <= Pow(10, 31) || Pow(5, 62) <= f
  {
    var j :| 0 <= j < k && PowerAt(f, e, y, j);
    DropTens(f, e, y, j);
    var m := y - j;
    PowerOfTenShape(f, e, m);
    LateInItsLimb(e, x, shift, m);
    SignificandAtLeast(f, m, m - e, 30);
    if m >= 62 {
      SignificandAtLeast(f, m, m - e, 62);
    } else {
      SignificandAtMost(f, e, m);
      PowMonotone(10, m, 31);
    }
  }

  /** Only at the end of a block of 32 can the extra bits reach the next limb. */
  lemma LateInItsLimb(e: nat, x: nat, shift: nat, m: nat)
    requires e <= m <= x && shift <= 2 && (e + shift) / BITS > x / BITS
    ensures m >= 30 && (m >= 62 || m <= 31)
  {
  }

  lemma SignificandAtLeast(f: nat, m: nat, k: nat, low: nat)
    requires f == Pow(5, m) * Pow(2, k) && low <= m
    ensures Pow(5, low) <= f
  {
    PowPositive(2, k);
    MulMonotone(1, Pow(2, k), Pow(5, m));
    PowMonotone(5, low, m);
  }

  lemma SignificandAtMost(f: nat, e: nat, m: nat)
    requires f * Pow(2, e) == Pow(10, m)
    ensures f <= Pow(10, m)
  {
    PowPositive(2, e);
    MulMonotone(1, Pow(2, e), f);
  }

  lemma Squared(b: nat, m: nat, v: nat)
    requires Pow(b, m) == v
    ensures Pow(b, 2 * m) == v * v
  {
    PowAdd(b, m, m);
  }

  lemma Times(b: nat, m: nat, n: nat, v: nat, w: nat)
    requires Pow(b, m) == v && Pow(b, n) == w
    ensures Pow(b, m + n) == v * w
  {
    PowAdd(b, m, n);
  }

  lemma PowersOfTwo()
    ensures Pow(2, 31) == 0x8000_0000 && Pow(2, 64) == 0x1_0000_0000_0000_0000
    ensures Pow(2, 112) == 0x1_0000_0000_0000_0000_0000_0000_0000 && Pow(2, 113) == 2 * Pow(2, 112)
  {
    assert Pow(2, 4) == 16;
    Squared(2, 4, 16);
    Squared(2, 8, 0x100);
    Squared(2, 16, 0x1_0000);
    Squared(2, 32, 0x1_0000_0000);
    Times(2, 32, 16, 0x1_0000_0000, 0x1_0000);
    Times(2, 64, 48, 0x1_0000_0000_0000_0000, 0x1_0000_0000_0000);
    assert Pow(2, 32) == 2 * Pow(2, 31);
  }

  lemma PowersOfFive()
    ensures Pow(5, 30) == 931322574615478515625 && Pow(5, 31) == 5 * Pow(5, 30)
    ensures Pow(5, 62) == Pow(5, 31) * Pow(5, 31)
  {
    assert Pow(5, 3) == 125;
    Times(5, 3, 2, 125, 25);
    Squared(5, 5, 3125);
    Squared(5, 10, 9765625);
    Times(5, 20, 10, 95367431640625, 9765625);
    Squared(5, 31, Pow(5, 31));
  }

  lemma PowersMeasured()
    ensures Pow(2, 64) < Pow(5, 30) && Pow(10, 31) < Pow(2, 112) && Pow(2, 113) < Pow(5, 62)
  {
    PowersOfTwo();
    PowersOfFive();
    PowProduct(5, 2, 31);
  }

  /** No significand of up to 64 bits, no normalized one of 113 bits, and nothing with a
      negative exponent is ever misprinted: that covers all the floating-point formats
      the library prints this way. */
  lemma FormatsNeverMisprinted(f: nat, e: int, x: int, shift: nat, y: int, k: int)
    requires 1 <= f < Pow(2, 64) || Pow(2, 112) <= f < Pow(2, 113) || (1 <= f && e < 0)
    requires y <= x && shift <= 2
    ensures !Misprinted(f, e, x, shift, y, k)
  {
    PowersMeasured();
    PowPositive(2, 112);
    if Misprinted(f, e, x, shift, y, k) { MisprintedSignificands(f, e, x, shift, y, k); }
  }

  /** `10^31` given as `5^31 * 2^31`: a misprinted number. */
  lemma MisprintsTenTo31()
    ensures
      var f := Pow(5, 31);
      && 1 <= f < BASE * BASE * (BASE * BASE) && Below(Top(f, 31), Bottom(31), 32)
      && !TooLarge(f, 31, 31) && Misprinted(f, 31, 31, 1, 31, 1)
  {
    var f := Pow(5, 31);
    PowersOfFive();
    PowProduct(5, 2, 31);
    UpMeasured();
    assert Top(f, 31) == Pow(10, 31);
    assert PowerAt(f, 31, 31, 0) by { assert Pow(10, 0) == 1; }
    HalfUnitAbove(f, Pow(2, 31));
  }

  lemma UpMeasured()
    ensures Up(10, -31) == 1 && Up(10, -32) == 1 && Up(2, -31) == 1 && Up(2, 31) == Pow(2, 31)
    ensures Up(10, 31) == Pow(10, 31) && Up(10, 32) == 10 * Pow(10, 31) && Pow(10, 31) >= 1
  {
    assert Pow(10, 0) == 1 && Pow(2, 0) == 1;
    assert Pow(10, 32) == 10 * Pow(10, 31);
    PowPositive(10, 31);
  }

  lemma HalfUnitAbove(f: nat, p: nat)
    requires 1 <= p
    ensures (2 * f + 1) * p > 2 * (f * p)
  {
    MulDistributes(p, 2 * f, 1);
    MulAssociates(2, f, p);
  }
}
