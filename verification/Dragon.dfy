/** Digit generation with a given number of digits: repeated exact division, one
    rounding decision, and carry propagation. */
module Dragon {
  import opened Limbs
  import opened Comparison
  import opened Borrows
  import opened BigInteger
  import opened Decimal

  /** The operands of digit generation: no leading zeros, below ten denominators. */
  predicate Operands(n: Num, d: Num) {
    d.Normal() && Stored(n, d) && n.Number() < 10 * d.Number()
  }

  // ---------- the one division that goes wrong ----------

  /** The dividend equals the divisor but is coarser: `Compare` calls it smaller. */
  predicate Missed(n: Num, d: Num) {
    n.exp > d.exp && n.Number() == d.Number()
  }

  lemma MissedExactly(n: Num, d: Num)
    requires d.Normal() && Stored(n, d)
    ensures Missed(n, d) <==> n.Number() == d.Number() && |n.bigits| < |d.bigits|
  {
    if n.Number() == d.Number() {
      NormalPositive(d);
      if n.Zero() { NumberZero(n); }
      NumBigitsDecide(n, d);
    }
  }

  /** The quotient `n / d` is a power of ten `10^-j` and the numerator starts coarser. */
  predicate MissedAt(n: Num, d: Num, j: int) {
    j >= 0 && n.exp > d.exp && n.Number() * Pow(10, j) == d.Number()
  }

  /** One of the first `k` digits would have to be that power's only digit. */
  ghost predicate Misprints(n: Num, d: Num, k: int) {
    exists j :: 0 <= j < k && MissedAt(n, d, j)
  }

  lemma MisprintsOneMore(n: Num, d: Num, k: nat)
    ensures Misprints(n, d, k + 1) <==> Misprints(n, d, k) || MissedAt(n, d, k)
  {
    if Misprints(n, d, k) {
      var j :| 0 <= j < k && MissedAt(n, d, j);
      assert j < k + 1;
    }
  }

  /** A power of ten that equals the coarser number leaves the divisor no lowest limb. */
  lemma LowestLimbDecides(n: Num, d: Num, k: int)
    requires d.Normal() && (n.exp <= d.exp || d.bigits[0] != 0)
    ensures !Misprints(n, d, k)
  {
    forall j | 0 <= j < k ensures !MissedAt(n, d, j) {
      if MissedAt(n, d, j) {
        MulAssociates(Value(n.bigits), Pow(BASE, n.exp), Pow(10, j));
        MulAssociates(Value(n.bigits), Pow(10, j), Pow(BASE, n.exp));
        CoarserIsMultiple(Value(n.bigits) * Pow(10, j), n.exp, d);
      }
    }
  }

  /** A multiple of a larger power of the limb base leaves no lowest limb. */
  lemma CoarserIsMultiple(v: nat, e: nat, d: Num)
    requires e > d.exp && d.bigits != [] && v * Pow(BASE, e) == d.Number()
    ensures d.bigits[0] == 0
  {
    var k := e - d.exp - 1;
    var w, p := Value(d.bigits), Pow(BASE, d.exp);
    PowPositive(BASE, d.exp);
    PowAdd(BASE, k + 1, d.exp);
    MulAssociates(v, Pow(BASE, k + 1), p);
    Cancel(v * Pow(BASE, k + 1), w, p);
    MulAssociates(BASE, Pow(BASE, k), v);
    assert v * Pow(BASE, k + 1) == BASE * (Pow(BASE, k) * v);
    assert w == d.bigits[0] + BASE * Value(d.bigits[1..]);
    LowDigit(d.bigits[0], Value(d.bigits[1..]), Pow(BASE, k) * v);
  }

  lemma Cancel(x: nat, y: nat, p: nat)
    requires 1 <= p && x * p == y * p
    ensures x == y
  {
    CancelScale(x, y, p);
    CancelScale(y, x, p);
  }

  lemma LowDigit(x: Limb, y: nat, z: nat)
    requires x + BASE * y == BASE * z
    ensures x == 0
  {
  }

  // ---------- one digit ----------

  /** What every division of the loop needs: after a missed one the numerator is ten
      denominators, not fewer. */
  predicate Ready(n: Num, d: Num) {
    d.Normal() && Stored(n, d) && n.Number() <= 10 * d.Number()
  }

  /** Up to ten times the divisor the dividend has at most one limb more. */
  lemma TenTimesFits(n: Num, d: Num)
    requires Ready(n, d)
    ensures n.NumBigits() <= d.NumBigits() + 1
  {
    if n.Normal() {
      NormalBounds(n);
      NormalBounds(d);
      PowBase(d.NumBigits());
      if n.NumBigits() > d.NumBigits() + 1 { PowMonotone(BASE, d.NumBigits() + 1, n.NumBigits() - 1); }
    }
  }

  /** One division: the quotient is a decimal digit, or ten after a missed division;
      the rest is below the denominator, or equal to it if this division is missed. */
  method NextDigit(numerator: Bigint, denominator: Bigint) returns (digit: nat)
    requires numerator != denominator && Ready(numerator.View(), denominator.View())
    modifies numerator
    ensures digit <= 10 && (digit == 10 <==> old(numerator.View()).Number() == 10 * denominator.View().Number())
    ensures old(numerator.View()).Number() == digit * denominator.View().Number() + numerator.View().Number()
    ensures numerator.View().Number() <= denominator.View().Number()
    ensures numerator.View().Number() == denominator.View().Number() <==> Missed(old(numerator.View()), denominator.View())
    ensures if digit == 0 then numerator.View() == old(numerator.View()) else numerator.exp <= denominator.exp
    ensures Stored(numerator.View(), denominator.View())
  {
    ghost var n, d := numerator.View(), denominator.View();
    TenTimesFits(n, d);
    MissedExactly(n, d);
    var completed;
    digit, completed := numerator.DivmodAssign(denominator);
    NormalPositive(d);
    DigitUpToTen(n.Number(), d.Number(), digit, numerator.View().Number());
  }

  lemma DigitUpToTen(n: nat, d: nat, q: nat, r: nat)
    requires n == q * d + r && n <= 10 * d && 1 <= d && (r < d || (q == 0 && r == d == n))
    ensures q <= 10 && (q == 10 <==> n == 10 * d)
  {
    if q > 10 { MulMonotone(11, q, d); }
    if q < 10 { MulMonotone(q, 9, d); }
  }

  method TimesTen(numerator: Bigint, ghost d: Num)
    requires d.Normal() && Stored(numerator.View(), d) && numerator.View().Number() <= d.Number()
    modifies numerator
    ensures Ready(numerator.View(), d) && numerator.exp == old(numerator.exp)
    ensures numerator.View().Number() == 10 * old(numerator.View()).Number()
  {
    numerator.Multiply(10);
  }

  // ---------- all digits ----------

  /** After `k` digits: what they spell, at ten times the divisor, plus the rest. */
  ghost predicate Generated(n: nat, d: nat, k: nat, spelled: int, rest: nat) {
    n * Pow(10, k) == spelled * (10 * d) + rest
  }

  lemma GeneratedStep(n: nat, d: nat, k: nat, spelled: int, rest: nat, digit: nat, r: nat)
    requires Generated(n, d, k, spelled, rest) && rest == digit * d + r
    ensures n * Pow(10, k) == (10 * spelled + digit) * d + r
    ensures Generated(n, d, k + 1, 10 * spelled + digit, 10 * r)
  {
    var s := 10 * spelled + digit;
    MulAssociates(spelled, 10, d);
    MulDistributes(d, 10 * spelled, digit);
    assert n * Pow(10, k) == s * d + r;
    MulAssociates(n, Pow(10, k), 10);
    MulAssociates(s, 10, d);
    MulAssociates(10, s, d);
  }

  /** The numerator before digit `i`: it has kept its exponent while all quotients were
      zero, it is ten denominators right after a missed division, and nothing from then on. */
  ghost predicate Stage(n: Num, d: Num, i: nat, now: Num) {
    && Ready(now, d)
    && (now.exp > d.exp <==> n.exp > d.exp && (i == 0 || n.Number() * Pow(10, i - 1) <= d.Number()))
    && (now.exp > d.exp ==> now.Number() == n.Number() * Pow(10, i))
    && (now.Number() == 10 * d.Number() <==> MissedAt(n, d, i - 1))
    && (Misprints(n, d, i - 1) ==> now.Number() == 0)
  }

  lemma StageStarts(n: Num, d: Num)
    requires Operands(n, d)
    ensures Stage(n, d, 0, n)
  {
    assert Pow(10, 0) == 1;
  }

  lemma StageStep(n: Num, d: Num, i: nat, was: Num, digit: nat, rest: Num, now: Num)
    requires Stage(n, d, i, was) && Ready(now, d) && 1 <= d.Number()
    requires was.Number() == digit * d.Number() + rest.Number() && rest.Number() <= d.Number()
    requires rest.Number() == d.Number() <==> Missed(was, d)
    requires if digit == 0 then rest == was else rest.exp <= d.exp
    requires digit == 10 <==> was.Number() == 10 * d.Number()
    requires now.Number() == 10 * rest.Number() && now.exp == rest.exp
    ensures Stage(n, d, i + 1, now)
  {
    TenfoldGrows(n.Number(), i);
    MulAssociates(n.Number(), Pow(10, i), 10);
    if i > 0 { MisprintsOneMore(n, d, i - 1); }
    if digit > 0 { MulMonotone(1, digit, d.Number()); }
  }

  lemma TenfoldGrows(n: nat, i: nat)
    ensures i > 0 ==> n * Pow(10, i - 1) <= n * Pow(10, i)
    ensures n * Pow(10, i + 1) == 10 * (n * Pow(10, i))
  {
    if i > 0 {
      PowMonotone(10, i - 1, i);
      MulMonotone(Pow(10, i - 1), Pow(10, i), n);
    }
    MulAssociates(10, n, Pow(10, i));
    MulAssociates(n, 10, Pow(10, i));
  }

  /** The first `i` digits: the numerator's stage, what they spell, and that only a
      missed division spoils them, by writing the character after '9' one place on. */
  ghost predicate Written(n: Num, d: Num, i: nat, digits: seq<char>, now: Num) {
    && Stage(n, d, i, now)
    && (AllDigits(digits) <==> !Misprints(n, d, i - 1))
    && 0 <= Spelled(digits)
    && Generated(n.Number(), d.Number(), i, Spelled(digits), now.Number())
  }

  /** The digits before the last one. */
  method LeadingDigits(numerator: Bigint, denominator: Bigint, numDigits: nat) returns (buf: seq<char>)
    requires numDigits >= 1 && numerator != denominator && Operands(numerator.View(), denominator.View())
    modifies numerator
    ensures |buf| == numDigits
    ensures Written(old(numerator.View()), denominator.View(), numDigits - 1, buf[..numDigits - 1], numerator.View())
  {
    ghost var n, d := numerator.View(), denominator.View();
    StageStarts(n, d);
    NormalPositive(d);
    buf := seq(numDigits, _ => '0');
    for i := 0 to numDigits - 1
      invariant |buf| == numDigits && denominator.View() == d
      invariant Written(n, d, i, buf[..i], numerator.View())
    {
      ghost var start, was := numerator.View(), buf;
      var digit := NextDigit(numerator, denominator);
      ghost var rest := numerator.View();
      buf := buf[i := DigitChar(digit)];
      TimesTen(numerator, d);
      StageStep(n, d, i, start, digit, rest, numerator.View());
      WrittenStep(n, d, i, was, start, digit, rest, buf, numerator.View());
    }
  }

  lemma WrittenStep(n: Num, d: Num, i: nat, was: seq<char>, start: Num, digit: nat, rest: Num, buf: seq<char>, now: Num)
    requires i < |was| && digit <= 10 && buf == was[i := DigitChar(digit)]
    requires Written(n, d, i, was[..i], start) && Stage(n, d, i + 1, now)
    requires start.Number() == digit * d.Number() + rest.Number() && now.Number() == 10 * rest.Number()
    requires digit == 10 <==> start.Number() == 10 * d.Number()
    ensures Written(n, d, i + 1, buf[..i + 1], now)
  {
    DigitWritten(was, buf, i, digit);
    if i > 0 { MisprintsOneMore(n, d, i - 1); }
    GeneratedStep(n.Number(), d.Number(), i, Spelled(was[..i]), start.Number(), digit, rest.Number());
  }

  lemma DigitWritten(was: seq<char>, buf: seq<char>, i: nat, digit: nat)
    requires i < |was| && digit <= 10 && buf == was[i := DigitChar(digit)]
    ensures Spelled(buf[..i + 1]) == 10 * Spelled(was[..i]) + digit
    ensures AllDigits(buf[..i + 1]) <==> AllDigits(was[..i]) && digit != 10
  {
    SpelledSnoc(buf, i);
    assert buf[..i] == was[..i];
    assert buf[..i + 1] == was[..i] + [DigitChar(digit)];
    if AllDigits(buf[..i + 1]) {
      assert IsDigit(buf[..i + 1][i]);
      forall k | 0 <= k < i ensures IsDigit(was[..i][k]) { assert buf[..i + 1][k] == was[..i][k]; }
    }
  }

  /** Carries ten out of the last place as far up as it goes. */
  method PropagateCarry(start: seq<char>) returns (buf: seq<char>)
    requires start != [] && AllDigits(start[..|start| - 1]) && DigitValue(start[|start| - 1]) == 10
    ensures |buf| == |start| && Spelled(buf) == Spelled(start)
    ensures AllDigits(buf) || (DigitValue(buf[0]) == 10 && forall k :: 1 <= k < |buf| ==> buf[k] == '0')
  {
    buf := start;
    var i := |buf| - 1;
    while i > 0 && buf[i] == DigitChar(10)
      invariant 0 <= i < |buf| == |start| && Spelled(buf) == Spelled(start)
      invariant forall k :: 0 <= k < i ==> IsDigit(buf[k])
      invariant IsDigit(buf[i]) || DigitValue(buf[i]) == 10
      invariant forall k :: i < k < |buf| ==> buf[k] == '0'
    {
      CarryTen(buf, i);
      buf := buf[i := '0'][i - 1 := DigitChar(DigitValue(buf[i - 1]) + 1)];
      i := i - 1;
    }
  }

  /** What is written denotes `n * 10^(numDigits - 1) / d` rounded half to even: at the
      place `exp10 - (numDigits - 1)`, unless the rounding overflowed into a new
      place, which is either written out or moved into the exponent. */
  ghost predicate Denotes(buf: seq<char>, exp10': int, n: nat, d: nat, numDigits: nat, exp10: int, fixedPoint: bool)
    requires 1 <= d && 1 <= numDigits
  {
    var rounded, place := Rounded(n * Pow(10, numDigits - 1), d), exp10 - (numDigits - 1);
    if rounded < Pow(10, numDigits) then
      |buf| == numDigits && exp10' == place && Spelled(buf) == rounded
    else if fixedPoint then
      |buf| == numDigits + 1 && exp10' == place && Spelled(buf) == rounded
    else
      |buf| == numDigits && exp10' == place + 1 && 10 * Spelled(buf) == rounded
  }

  /** What the last digit and the rest decide; a rest equal to the denominator, after
      a missed division, rounds up to exactly the quotient. */
  lemma LastDigitRounds(n: nat, d: nat, k: nat, spelled: nat, rest: nat, digit: nat, r: nat)
    requires Generated(n, d, k, spelled, rest) && rest == digit * d + r && r <= d && 1 <= d
    ensures
      Rounded(n * Pow(10, k), d) ==
        if 2 * r > d || (2 * r == d && digit % 2 != 0) then 10 * spelled + digit + 1 else 10 * spelled + digit
    ensures (10 * spelled + digit) * d <= n * Pow(10, k)
  {
    GeneratedStep(n, d, k, spelled, rest, digit, r);
    RoundsFrom(n * Pow(10, k), d, spelled, digit, r);
  }

  lemma RoundsFrom(m: nat, d: nat, s: nat, digit: nat, r: nat)
    requires m == (10 * s + digit) * d + r && r <= d && 1 <= d
    ensures Rounded(m, d) ==
            if 2 * r > d || (2 * r == d && digit % 2 != 0) then 10 * s + digit + 1 else 10 * s + digit
  {
    var q := 10 * s + digit;
    if r == d {
      MulDistributes(d, q, 1);
      RoundedIs(m, d, q + 1, 0);
    } else {
      RoundedIs(m, d, q, r);
    }
    assert q % 2 == digit % 2;
  }

  /** Below ten denominators the quotient has no more digits than asked for. */
  lemma QuotientBelow(n: nat, d: nat, k: nat, q: nat)
    requires n < 10 * d && q * d <= n * Pow(10, k)
    ensures q < Pow(10, k + 1)
  {
    PowPositive(10, k);
    MulMonotone(n + 1, 10 * d, Pow(10, k));
    MulDistributes(Pow(10, k), n, 1);
    assert 10 * d * Pow(10, k) == Pow(10, k + 1) * d by {
      MulAssociates(10, d, Pow(10, k));
      MulAssociates(10, Pow(10, k), d);
    }
    if q >= Pow(10, k + 1) { MulMonotone(Pow(10, k + 1), q, d); }
  }

  /** The last digit was a nine and is rounded up: carry, and place an overflow. */
  method RoundUpNine(start: seq<char>, place: int, fixedPoint: bool) returns (buf: seq<char>, exp10': int)
    requires start != [] && AllDigits(start[..|start| - 1]) && DigitValue(start[|start| - 1]) == 10
    ensures AllDigits(buf)
    ensures
      if Spelled(start) < Pow(10, |start|) then
        |buf| == |start| && exp10' == place && Spelled(buf) == Spelled(start)
      else if fixedPoint then
        |buf| == |start| + 1 && exp10' == place && Spelled(buf) == Spelled(start)
      else
        |buf| == |start| && exp10' == place + 1 && 10 * Spelled(buf) == Spelled(start)
  {
    buf := PropagateCarry(start);
    exp10' := place;
    if buf[0] == DigitChar(10) {
      assert Pow(10, |start|) == 10 * Pow(10, |start| - 1);
      SpelledLeading(buf);
      buf := buf[0 := '1'];
      SpelledLeading(buf);
      if fixedPoint {
        ghost var was := buf;
        buf := buf + ['0'];
        assert buf[..|buf| - 1] == was;
      } else {
        exp10' := exp10' + 1;
      }
    } else {
      SpelledBounds(buf);
    }
  }

  /** Fixed digits, for any numerator below ten denominators and any positive number of
      digits: what is written always denotes the exact quotient, rounded half to even,
      and it is written in decimal digits exactly unless the quotient is a power of ten
      `10^-j`, `j < numDigits - 1`, of a numerator that is coarser than the denominator. */
  method FixedDigits(numerator: Bigint, denominator: Bigint, numDigits: nat, exp10: int, fixedPoint: bool)
    returns (buf: seq<char>, exp10': int)
    requires numDigits >= 1 && numerator != denominator && Operands(numerator.View(), denominator.View())
    modifies numerator
    ensures denominator.View().Number() >= 1
    ensures Denotes(buf, exp10', old(numerator.View()).Number(), denominator.View().Number(), numDigits, exp10, fixedPoint)
    ensures AllDigits(buf) <==> !Misprints(old(numerator.View()), denominator.View(), numDigits - 1)
  {
    ghost var n, d := numerator.View(), denominator.View();
    NormalPositive(d);
    buf := LeadingDigits(numerator, denominator, numDigits);
    ghost var m, start := numDigits - 1, numerator.View();
    ghost var spelled := Spelled(buf[..m]);
    var digit := NextDigit(numerator, denominator);
    ghost var r := numerator.View().Number();
    var result := Bigint.AddCompare(numerator, numerator, denominator);
    LastDigitRounds(n.Number(), d.Number(), m, spelled, start.Number(), digit, r);
    QuotientBelow(n.Number(), d.Number(), m, 10 * spelled + digit);
    LastStage(n, d, m, start, digit, r);
    var up := result > 0 || (result == 0 && digit % 2 != 0);
    buf, exp10' := WriteLast(buf, digit, up, exp10 - (numDigits - 1), fixedPoint);
  }

  /** The last digit, rounded up or not. */
  method WriteLast(start: seq<char>, last: nat, up: bool, place: int, fixedPoint: bool)
    returns (buf: seq<char>, exp10': int)
    requires start != [] && last <= 10 && 0 <= Spelled(start[..|start| - 1])
    requires up ==> last <= 9 && AllDigits(start[..|start| - 1])
    requires !up ==> 10 * Spelled(start[..|start| - 1]) + last < Pow(10, |start|)
    ensures AllDigits(buf) <==> AllDigits(start[..|start| - 1]) && last != 10
    ensures
      var rounded := 10 * Spelled(start[..|start| - 1]) + last + if up then 1 else 0;
      if rounded < Pow(10, |start|) then
        |buf| == |start| && exp10' == place && Spelled(buf) == rounded
      else if fixedPoint then
        |buf| == |start| + 1 && exp10' == place && Spelled(buf) == rounded
      else
        |buf| == |start| && exp10' == place + 1 && 10 * Spelled(buf) == rounded
  {
    ghost var m := |start| - 1;
    buf, exp10' := start, place;
    var digit := last;
    if up {
      if digit == 9 {
        buf := buf[|buf| - 1 := DigitChar(10)];
        DigitWritten(start, buf, m, 10);
        assert buf[..m] == start[..m] && buf[..m + 1] == buf;
        buf, exp10' := RoundUpNine(buf, place, fixedPoint);
        return;
      }
      digit := digit + 1;
    }
    buf := buf[|buf| - 1 := DigitChar(digit)];
    DigitWritten(start, buf, m, digit);
    assert buf[..m + 1] == buf;
    if up { SpelledBounds(buf); }
  }

  /** After a misprint nothing is left to round; otherwise the last digit is a digit. */
  lemma LastStage(n: Num, d: Num, m: nat, start: Num, digit: nat, r: nat)
    requires Stage(n, d, m, start) && 1 <= d.Number()
    requires start.Number() == digit * d.Number() + r
    requires digit == 10 <==> start.Number() == 10 * d.Number()
    ensures Misprints(n, d, m) <==> Misprints(n, d, m - 1) || digit == 10
    ensures Misprints(n, d, m) ==> r == 0
    ensures Misprints(n, d, m - 1) ==> digit == 0
  {
    if m > 0 { MisprintsOneMore(n, d, m - 1); }
    if digit > 0 { MulMonotone(1, digit, d.Number()); }
  }

  /** No digit asked for: a single '0' or '1', rounding at a place above the number. */
  method NoDigits(numerator: Bigint, denominator: Bigint, numDigits: int, exp10: int)
    returns (buf: seq<char>, exp10': int)
    requires numDigits <= 0 && numerator != denominator && Operands(numerator.View(), denominator.View())
    modifies denominator
    ensures 1 <= old(denominator.View()).Number() * Pow(10, 1 - numDigits)
    ensures AllDigits(buf) && |buf| == 1 && exp10' == exp10 - (numDigits - 1)
    ensures Spelled(buf) ==
            Rounded(numerator.View().Number(), old(denominator.View()).Number() * Pow(10, 1 - numDigits))
  {
    ghost var n, d := numerator.View().Number(), denominator.View().Number();
    NormalPositive(denominator.View());
    RoundsToNothing(n, d, 1 - numDigits);
    exp10' := exp10 - (numDigits - 1);
    var digit := '0';
    if numDigits == 0 {
      denominator.Multiply(10);
      var result := Bigint.AddCompare(numerator, numerator, denominator);
      digit := if result > 0 then '1' else '0';
    }
    buf := [digit];
    assert buf[..0] == [];
  }

  lemma RoundsToNothing(n: nat, d: nat, k: nat)
    requires 1 <= d && n < 10 * d && 1 <= k
    ensures 1 <= d * Pow(10, k)
    ensures Rounded(n, d * Pow(10, k)) == if k == 1 && 2 * n > 10 * d then 1 else 0
  {
    var m := d * Pow(10, k);
    assert Pow(10, 1) == 10 && Pow(10, 2) == 10 * Pow(10, 1);
    PowMonotone(10, 1, k);
    if k > 1 { PowMonotone(10, 2, k); }
    TenOrMoreTimes(d, Pow(10, k));
    RoundedIs(n, m, 0, n);
  }

  lemma TenOrMoreTimes(d: nat, p: nat)
    requires 10 <= p
    ensures d * p >= 10 * d
    ensures p == 10 ==> d * p == 10 * d
    ensures p >= 100 ==> d * p >= 100 * d
  {
    MulMonotone(10, p, d);
    if p >= 100 { MulMonotone(100, p, d); }
  }
}
