/** Strings of decimal digits, where one digit may for a while stand for ten. */
module Decimal {
  import opened Limbs

  /** `'0' + d`; ten is the character after '9'. */
  function DigitChar(d: nat): char
    requires d <= 10
  {
    ('0' as int + d) as char
  }

  function DigitValue(ch: char): int {
    ch as int - '0' as int
  }

  predicate IsDigit(ch: char) {
    '0' <= ch <= '9'
  }

  predicate AllDigits(s: seq<char>) {
    forall i :: 0 <= i < |s| ==> IsDigit(s[i])
  }

  /** The number a digit string spells. */
  function Spelled(s: seq<char>): int {
    if s == [] then 0 else 10 * Spelled(s[..|s| - 1]) + DigitValue(s[|s| - 1])
  }

  lemma SpelledSnoc(s: seq<char>, k: nat)
    requires k < |s|
    ensures Spelled(s[..k + 1]) == 10 * Spelled(s[..k]) + DigitValue(s[k])
  {
    assert s[..k + 1][..k] == s[..k];
  }

  /** Changing one digit changes the number by that much at that place. */
  lemma {:induction false} SpelledUpdate(s: seq<char>, i: nat, ch: char)
    requires i < |s|
    ensures Spelled(s[i := ch]) == Spelled(s) + (DigitValue(ch) - DigitValue(s[i])) * Pow(10, |s| - 1 - i)
  {
    var t, n := s[i := ch], |s| - 1;
    if i == n {
      assert t[..n] == s[..n];
    } else {
      SpelledUpdate(s[..n], i, ch);
      assert t[..n] == s[..n][i := ch];
      var x, p := DigitValue(ch) - DigitValue(s[i]), Pow(10, n - 1 - i);
      assert Pow(10, n - i) == 10 * p;
      MulAssociates(x, 10, p);
      MulAssociates(10, x, p);
    }
  }

  /** Moving ten from one place into the next higher one spells the same number. */
  lemma CarryTen(s: seq<char>, i: nat)
    requires 0 < i < |s| && DigitValue(s[i]) == 10 && IsDigit(s[i - 1])
    ensures Spelled(s[i := '0'][i - 1 := DigitChar(DigitValue(s[i - 1]) + 1)]) == Spelled(s)
  {
    var t := s[i := '0'];
    SpelledUpdate(s, i, '0');
    SpelledUpdate(t, i - 1, DigitChar(DigitValue(s[i - 1]) + 1));
    assert Pow(10, |s| - i) == 10 * Pow(10, |s| - 1 - i);
  }

  lemma {:induction false} SpelledLeading(s: seq<char>)
    requires s != [] && forall i :: 1 <= i < |s| ==> s[i] == '0'
    ensures Spelled(s) == DigitValue(s[0]) * Pow(10, |s| - 1)
  {
    var n := |s| - 1;
    if n > 0 {
      SpelledLeading(s[..n]);
      var x, p := DigitValue(s[0]), Pow(10, n - 1);
      assert Pow(10, n) == 10 * p;
      MulAssociates(10, x, p);
      MulAssociates(x, 10, p);
    }
  }

  /** `n / d` rounded to the nearest integer, ties to even. */
  function Rounded(n: nat, d: nat): nat
    requires 1 <= d
  {
    var q, r := n / d, n % d;
    if 2 * r > d || (2 * r == d && q % 2 != 0) then q + 1 else q
  }

  /** Rounding a number given by quotient and remainder. */
  lemma RoundedIs(n: nat, d: nat, q: nat, r: nat)
    requires n == d * q + r && r < d
    ensures Rounded(n, d) == if 2 * r > d || (2 * r == d && q % 2 != 0) then q + 1 else q
  {
    DivIs(n, d, q, r);
  }

  lemma {:induction false} SpelledBounds(s: seq<char>)
    requires AllDigits(s)
    ensures 0 <= Spelled(s) < Pow(10, |s|)
  {
    if s != [] {
      assert s[..|s| - 1] <= s;
      SpelledBounds(s[..|s| - 1]);
    }
  }

  /** `Rounded` is a nearest integer, and the even one of two nearest. */
  lemma RoundedNearest(n: nat, d: nat, other: int)
    requires 1 <= d
    ensures
      var r := Rounded(n, d);
      var off, off' := if n >= r * d then n - r * d else r * d - n, if n >= other * d then n - other * d else other * d - n;
      && off <= off'
      && (off == off' && other != r ==> r % 2 == 0)
  {
    var q, m := n / d, n % d;
    QuotientForm(n, d);
    NearestFrom(n, d, q, m, Rounded(n, d), other);
  }

  lemma NearestFrom(n: int, d: int, q: nat, m: int, r: int, other: int)
    requires 1 <= d && n == q * d + m && 0 <= m < d
    requires r == if 2 * m > d || (2 * m == d && q % 2 != 0) then q + 1 else q
    ensures
      var off, off' := if n >= r * d then n - r * d else r * d - n, if n >= other * d then n - other * d else other * d - n;
      && off <= off'
      && (off == off' && other != r ==> r % 2 == 0)
  {
    Multiples(q, r - q, d);
    Multiples(q, other - q, d);
    NoNearer(q * d, m, d, r == q + 1, other - q, other * d);
    assert r == q + 1 ==> r % 2 != q % 2;
  }

  lemma QuotientForm(n: nat, d: nat)
    requires 1 <= d
    ensures n == (n / d) * d + n % d && n % d < d
  {
  }

  /** Where the multiple `(q + j) * d` lies relative to `q * d`. */
  lemma Multiples(q: nat, j: int, d: int)
    requires 1 <= d
    ensures
      var t := (q + j) * d - q * d;
      && (j <= -1 ==> t <= -d)
      && (j == 0 ==> t == 0)
      && (j == 1 ==> t == d)
      && (j >= 2 ==> t >= 2 * d)
  {
    MulDistributes(d, q, j);
    if j <= -1 { MulMonotone(1, -j, d); }
    if j >= 2 { MulMonotone(2, j, d); }
  }

  /** Of all multiples of `d`, those at `base` and `base + d` come closest to `base + m`. */
  lemma NoNearer(base: int, m: int, d: int, up: bool, j: int, at: int)
    requires 0 <= m < d && (up ==> 2 * m >= d) && (!up ==> 2 * m <= d)
    requires j <= -1 ==> at - base <= -d
    requires j == 0 ==> at == base
    requires j == 1 ==> at - base == d
    requires j >= 2 ==> at - base >= 2 * d
    ensures
      var off, off' := if up then d - m else m, if base + m >= at then base + m - at else at - base - m;
      off <= off' && (off == off' ==> j == (if up then 1 else 0) || (2 * m == d && (j == 0 || j == 1)))
  {
  }
}
