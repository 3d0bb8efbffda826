/** A number read from the top: the part of it at and above a limb position. */
module HighLimbs {
  import opened Limbs

  /** The number formed by the limbs at positions `i` and above. */
  function High(n: Num, i: nat): nat
    decreases if i < n.NumBigits() then n.NumBigits() - i else 0
  {
    if i >= n.NumBigits() then 0 else High(n, i + 1) * BASE + n.GetBigit(i)
  }

  lemma {:induction false} HighStored(n: Num, i: nat)
    requires n.exp <= i <= n.NumBigits()
    ensures High(n, i) == Value(n.bigits[i - n.exp..])
    decreases n.NumBigits() - i
  {
    if i < n.NumBigits() {
      HighStored(n, i + 1);
      assert n.bigits[i - n.exp..][1..] == n.bigits[i + 1 - n.exp..];
    }
  }

  /** At or below the exponent nothing is cut off. */
  lemma {:induction false} HighExact(n: Num, i: nat)
    requires i <= n.exp
    ensures High(n, i) * Pow(BASE, i) == n.Number()
    ensures High(n, i) == Value(n.bigits) * Pow(BASE, n.exp - i)
    decreases n.exp - i
  {
    var v := Value(n.bigits);
    if i == n.exp {
      HighStored(n, i);
      assert n.bigits[0..] == n.bigits;
    } else {
      HighExact(n, i + 1);
      PowBase(n.exp - i - 1);
      if i < n.NumBigits() {
        assert v * (BASE * Pow(BASE, n.exp - i - 1)) == v * Pow(BASE, n.exp - i - 1) * BASE by {
          MulAssociates(v, Pow(BASE, n.exp - i - 1), BASE);
        }
      }
      PowAdd(BASE, n.exp - i, i);
      MulAssociates(v, Pow(BASE, n.exp - i), Pow(BASE, i));
    }
  }

  /** What lies below position `i` is less than one unit of it. */
  lemma {:induction false} HighBounds(n: Num, i: nat)
    ensures High(n, i) * Pow(BASE, i) <= n.Number() < (High(n, i) + 1) * Pow(BASE, i)
  {
    if i == 0 {
      HighExact(n, 0);
    } else {
      HighBounds(n, i - 1);
      var p, q := Pow(BASE, i - 1), Pow(BASE, i);
      var h, g := High(n, i - 1), High(n, i);
      PowPositive(BASE, i - 1);
      assert q == BASE * p;
      if i - 1 < n.NumBigits() {
        var d := n.GetBigit(i - 1);
        assert h == g * BASE + d;
        HighStep(g, d, p);
        MulMonotone(h + 1, (g + 1) * BASE, p);
      } else {
        MulMonotone(p, q, 1);
      }
    }
  }

  lemma HighStep(g: nat, d: Limb, p: nat)
    ensures g * (BASE * p) <= (g * BASE + d) * p
    ensures (g + 1) * BASE * p == (g + 1) * (BASE * p)
  {
    MulAssociates(g, BASE, p);
    MulAssociates(g + 1, BASE, p);
    MulMonotone(g * BASE, g * BASE + d, p);
  }

  /** A difference above position `i` decides. */
  lemma HighDecides(a: Num, b: Num, i: nat)
    requires High(a, i) < High(b, i)
    ensures a.Number() < b.Number()
  {
    HighBounds(a, i);
    HighBounds(b, i);
    MulMonotone(High(a, i) + 1, High(b, i), Pow(BASE, i));
  }

  function Sign(x: int): int {
    if x > 0 then 1 else if x < 0 then -1 else 0
  }
}
