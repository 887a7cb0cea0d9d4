/** Bitwise operators of unsigned C integers, given on natural numbers, and the
    arithmetic meaning of the masks and shifts that the sources use. */
module Bits {

  function Pow2(k: nat): (p: nat)
    ensures p > 0
  {
    if k == 0 then 1 else 2 * Pow2(k - 1)
  }

  function And(x: nat, y: nat): nat {
    if x == 0 || y == 0 then 0 else (if x % 2 == 1 && y % 2 == 1 then 1 else 0) + 2 * And(x / 2, y / 2)
  }

  function Or(x: nat, y: nat): nat {
    if x == 0 then y
    else if y == 0 then x
    else (if x % 2 == 1 || y % 2 == 1 then 1 else 0) + 2 * Or(x / 2, y / 2)
  }

  /** Bit k of x. */
  predicate Bit(x: nat, k: nat) {
    if k == 0 then x % 2 == 1 else Bit(x / 2, k - 1)
  }

  lemma BitHalf(x: nat, k: nat)
    requires k > 0
    ensures Bit(x, k) == Bit(x / 2, k - 1)
  {}

  lemma BitThree(x: nat, k: nat)
    requires k >= 3
    ensures Bit(x, k) == Bit(x / 8, k - 3)
  {
    BitHalf(x, k);
    BitHalf(x / 2, k - 1);
    BitHalf(x / 2 / 2, k - 2);
    assert x / 2 / 2 / 2 == x / 8;
  }

  lemma {:induction false} BitOfAnd(x: nat, y: nat, k: nat)
    ensures Bit(And(x, y), k) <==> Bit(x, k) && Bit(y, k)
  {
    if x == 0 {
      BitOfZero(k);
    } else if y == 0 {
      BitOfZero(k);
    } else if k > 0 {
      BitOfAnd(x / 2, y / 2, k - 1);
    }
  }

  lemma {:induction false} BitOfOr(x: nat, y: nat, k: nat)
    ensures Bit(Or(x, y), k) <==> Bit(x, k) || Bit(y, k)
  {
    if x == 0 {
      BitOfZero(k);
    } else if y == 0 {
      BitOfZero(k);
    } else if k > 0 {
      BitOfOr(x / 2, y / 2, k - 1);
    }
  }

  lemma {:induction false} BitOfZero(k: nat)
    ensures !Bit(0, k)
  {
    if k > 0 {
      BitOfZero(k - 1);
    }
  }

  lemma {:induction false} BitOfPow2(j: nat, k: nat)
    ensures Bit(Pow2(j), k) <==> j == k
  {
    if j == 0 {
      if k > 0 { BitOfZero(k - 1); }
    } else if k > 0 {
      BitOfPow2(j - 1, k - 1);
    }
  }

  /** x & (2^k - 1): the k low bits. */
  lemma {:induction false} AndLowMask(x: nat, k: nat)
    ensures And(x, Pow2(k) - 1) == x % Pow2(k)
  {
    if k > 0 {
      var p := Pow2(k - 1);
      AndLowMask(x / 2, k - 1);
      assert x % (2 * p) == x % 2 + 2 * (x / 2 % p) by { ModTwice(x, p); }
      assert (Pow2(k) - 1) / 2 == p - 1;
    }
  }

  lemma ModTwice(x: nat, p: nat)
    requires p > 0
    ensures x % (2 * p) == x % 2 + 2 * (x / 2 % p)
    ensures x / (2 * p) == x / 2 / p
  {
    var h := x / 2;
    var q, r := h / p, h % p;
    assert h == q * p + r;
    assert x == q * (2 * p) + (2 * r + x % 2);
    DivModUnique(x, 2 * p, q, 2 * r + x % 2);
  }

  lemma DivModUnique(x: nat, d: nat, q: nat, r: nat)
    requires d > 0 && r < d && x == q * d + r
    ensures x / d == q && x % d == r
  {
    var q', r' := x / d, x % d;
    assert q' * d + r' == q * d + r;
    MultipleBelow(q' - q, d, r - r') by {
      assert (q' - q) * d == q' * d - q * d;
    }
  }

  lemma MultipleBelow(n: int, d: int, m: int)
    requires n * d == m && 0 - d < m < d
    ensures n == 0
  {
    MulSign(n, d);
  }

  lemma MulSign(n: int, d: int)
    requires d > 0
    ensures n >= 1 ==> n * d >= d
    ensures n <= -1 ==> n * d <= -d
  {}

  /** High bits | low bits with nothing in common: addition. */
  lemma {:induction false} OrDisjoint(h: nat, l: nat, k: nat)
    requires l < Pow2(k)
    ensures Or(h * Pow2(k), l) == h * Pow2(k) + l
  {
    if k > 0 && h > 0 && l > 0 {
      var p := Pow2(k - 1);
      var x := h * Pow2(k);
      assert x == 2 * (h * p);
      assert x > 0;
      assert x / 2 == h * p && x % 2 == 0;
      OrDisjoint(h, l / 2, k - 1);
    } else if h == 0 {
      assert h * Pow2(k) == 0;
    }
  }

  /** x & ~(2^k - 1) on a width of w bits: clears the k low bits. */
  lemma {:induction false} AndHighMask(x: nat, k: nat, w: nat)
    requires k <= w && x < Pow2(w)
    ensures Pow2(k) <= Pow2(w)
    ensures And(x, Pow2(w) - Pow2(k)) == x - x % Pow2(k)
  {
    if k == 0 {
      AndLowMask(x, w);
      Small(x, Pow2(w));
      assert Pow2(0) == 1;
    } else {
      var p, q := Pow2(k - 1), Pow2(w - 1);
      AndHighMask(x / 2, k - 1, w - 1);
      var m := Pow2(w) - Pow2(k);
      assert m == 2 * (q - p);
      assert m / 2 == q - p && m % 2 == 0;
      ModTwice(x, p);
      ModLe(x / 2, p);
      AndStep(x, m);
    }
  }

  lemma {:induction false} OrCommutes(x: nat, y: nat)
    ensures Or(x, y) == Or(y, x)
  {
    if x != 0 && y != 0 {
      OrCommutes(x / 2, y / 2);
    }
  }

  /** x | 2^k sets bit k. */
  lemma {:induction false} OrPow2(x: nat, k: nat)
    ensures Or(x, Pow2(k)) == x + (if Bit(x, k) then 0 else Pow2(k))
  {
    if k > 0 && x > 0 {
      OrPow2(x / 2, k - 1);
    } else if x == 0 {
      BitOfZero(k);
    }
  }

  lemma AndStep(x: nat, y: nat)
    ensures And(x, y) == (if x % 2 == 1 && y % 2 == 1 then 1 else 0) + 2 * And(x / 2, y / 2)
  {}

  /** Three low one bits in the mask keep three low bits. */
  lemma AndThreeOnes(x: nat, m: nat)
    ensures And(x, 8 * m + 7) == x % 8 + 8 * And(x / 8, m)
  {
    AndStep(x, 8 * m + 7);
    AndTwoOnes(x / 2, m);
    assert x / 2 / 4 == x / 8 && x % 8 == x % 2 + 2 * (x / 2 % 4);
  }

  lemma AndTwoOnes(x: nat, m: nat)
    ensures And(x, 4 * m + 3) == x % 4 + 4 * And(x / 4, m)
  {
    AndStep(x, 4 * m + 3);
    AndStep(x / 2, 2 * m + 1);
    assert x / 2 / 2 == x / 4 && x % 4 == x % 2 + 2 * (x / 2 % 2);
  }

  lemma Small(x: nat, d: nat)
    requires x < d
    ensures x % d == x
  {}

  lemma ModLe(x: nat, d: nat)
    requires d > 0
    ensures x % d <= x
  {
    if x < d { Small(x, d); }
  }

  lemma {:induction false} AndBound(x: nat, y: nat)
    ensures And(x, y) <= x
  {
    if x != 0 && y != 0 {
      AndBound(x / 2, y / 2);
    }
  }

  lemma {:induction false} OrBound(x: nat, y: nat, w: nat)
    requires x < Pow2(w) && y < Pow2(w)
    ensures Or(x, y) < Pow2(w)
  {
    if w > 0 {
      OrBound(x / 2, y / 2, w - 1);
    }
  }

  /** x & 2^k tests bit k. */
  lemma {:induction false} AndPow2(x: nat, k: nat)
    ensures And(x, Pow2(k)) == if Bit(x, k) then Pow2(k) else 0
  {
    if x == 0 {
      BitOfZero(k);
    } else if k > 0 {
      AndPow2(x / 2, k - 1);
    } else {
      assert And(x / 2, 0) == 0;
    }
  }

  lemma {:induction false} BitOfOnes(w: nat, k: nat)
    ensures Bit(Pow2(w) - 1, k) <==> k < w
  {
    if w == 0 {
      BitOfZero(k);
    } else if k > 0 {
      assert (Pow2(w) - 1) / 2 == Pow2(w - 1) - 1;
      BitOfOnes(w - 1, k - 1);
    }
  }

  /** ~2^j on a width of w bits: every bit but j. */
  lemma {:induction false} BitOfHole(w: nat, j: nat, k: nat)
    requires j < w
    ensures Pow2(j) < Pow2(w)
    ensures Bit(Pow2(w) - 1 - Pow2(j), k) <==> k < w && k != j
  {
    if j == 0 {
      if k > 0 {
        assert (Pow2(w) - 2) / 2 == Pow2(w - 1) - 1;
        BitOfOnes(w - 1, k - 1);
      }
    } else {
      BitOfHole(w - 1, j - 1, if k > 0 then k - 1 else 0);
      assert (Pow2(w) - 1 - Pow2(j)) / 2 == Pow2(w - 1) - 1 - Pow2(j - 1);
    }
  }
}
