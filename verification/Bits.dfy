/**
 Bitwise operators of machine words, on natural numbers, defined bit by bit from the low end.
 `Bit` is the meaning of a word; the lemmas give the meaning of each operator.
 */
module Bits {

  function Pow2(k: nat): (p: nat)
    ensures p > 0
  {
    if k == 0 then 1 else 2 * Pow2(k - 1)
  }

  predicate Bit(x: nat, k: nat) {
    if k == 0 then x % 2 == 1 else Bit(x / 2, k - 1)
  }

  function Or(x: nat, y: nat): nat {
    if x == 0 then y
    else if y == 0 then x
    else 2 * Or(x / 2, y / 2) + (if x % 2 == 1 || y % 2 == 1 then 1 else 0)
  }

  function And(x: nat, y: nat): nat {
    if x == 0 || y == 0 then 0
    else 2 * And(x / 2, y / 2) + (if x % 2 == 1 && y % 2 == 1 then 1 else 0)
  }

  /** The complement of the low `width` bits of `x`. */
  function Not(x: nat, width: nat): nat {
    if width == 0 then 0 else 2 * Not(x / 2, width - 1) + (1 - x % 2)
  }

  function ShiftRight(x: nat, k: nat): nat {
    if k == 0 then x else ShiftRight(x / 2, k - 1)
  }

  lemma {:induction false} Pow2Adds(j: nat, k: nat)
    ensures Pow2(j + k) == Pow2(j) * Pow2(k)
  {
    if j > 0 { Pow2Adds(j - 1, k); }
  }

  lemma {:induction false} ZeroBits(k: nat)
    ensures !Bit(0, k)
  {
    if k > 0 { ZeroBits(k - 1); }
  }

  lemma {:induction false} HighBitsAreClear(x: nat, j: nat, k: nat)
    requires x < Pow2(j) && j <= k
    ensures !Bit(x, k)
  {
    if j == 0 {
      ZeroBits(k);
    } else {
      HighBitsAreClear(x / 2, j - 1, k - 1);
    }
  }

  lemma {:induction false} BitOfPow2(j: nat, k: nat)
    ensures Bit(Pow2(j), k) <==> j == k
  {
    if j == 0 {
      if k > 0 { ZeroBits(k - 1); }
    } else if k > 0 {
      BitOfPow2(j - 1, k - 1);
    }
  }

  lemma {:induction false} BitOfOr(x: nat, y: nat, k: nat)
    ensures Bit(Or(x, y), k) <==> Bit(x, k) || Bit(y, k)
  {
    if x == 0 || y == 0 {
      ZeroBits(k);
    } else if k > 0 {
      BitOfOr(x / 2, y / 2, k - 1);
    }
  }

  lemma {:induction false} BitOfAnd(x: nat, y: nat, k: nat)
    ensures Bit(And(x, y), k) <==> Bit(x, k) && Bit(y, k)
  {
    if x == 0 || y == 0 {
      ZeroBits(k);
    } else if k > 0 {
      BitOfAnd(x / 2, y / 2, k - 1);
    }
  }

  lemma {:induction false} BitOfNot(x: nat, width: nat, k: nat)
    ensures Bit(Not(x, width), k) <==> k < width && !Bit(x, k)
  {
    if width == 0 {
      ZeroBits(k);
    } else {
      HalfOfSum(Not(x / 2, width - 1), 1 - x % 2);
      if k > 0 { BitOfNot(x / 2, width - 1, k - 1); }
    }
  }

  lemma HalfOfSum(n: nat, low: nat)
    requires low < 2
    ensures (2 * n + low) / 2 == n && (2 * n + low) % 2 == low
  {}

  /** Masking a word with `1 << k` tests bit k. */
  lemma {:induction false} AndPow2TestsBit(x: nat, k: nat)
    ensures And(x, Pow2(k)) != 0 <==> Bit(x, k)
  {
    if x == 0 {
      ZeroBits(k);
    } else if k == 0 {
      AndZero(x / 2);
    } else {
      AndPow2TestsBit(x / 2, k - 1);
    }
  }

  lemma AndZero(x: nat)
    ensures And(x, 0) == 0
  {}

  lemma AndOneIsParity(x: nat)
    ensures And(x, 1) == x % 2
  {}

  /** Shifting right by k and keeping the low bit reads bit k. */
  lemma {:induction false} ShiftReadsBit(x: nat, k: nat)
    ensures ShiftRight(x, k) % 2 == 1 <==> Bit(x, k)
  {
    if k > 0 { ShiftReadsBit(x / 2, k - 1); }
  }

  lemma {:induction false} ShiftOnce(x: nat, k: nat)
    ensures ShiftRight(x, k + 1) == ShiftRight(x, k) / 2
  {
    if k > 0 { ShiftOnce(x / 2, k - 1); }
  }

  lemma {:induction false} OrFits(x: nat, y: nat, width: nat)
    requires x < Pow2(width) && y < Pow2(width)
    ensures Or(x, y) < Pow2(width)
  {
    if width > 0 && x != 0 && y != 0 { OrFits(x / 2, y / 2, width - 1); }
  }

  lemma {:induction false} AndFits(x: nat, y: nat)
    ensures And(x, y) <= x
  {
    if x != 0 && y != 0 { AndFits(x / 2, y / 2); }
  }

  /** Words of one width are determined by their bits. */
  lemma {:induction false} SameBitsSameWord(x: nat, y: nat, width: nat)
    requires x < Pow2(width) && y < Pow2(width)
    requires forall k: nat | k < width :: Bit(x, k) <==> Bit(y, k)
    ensures x == y
  {
    if width > 0 {
      assert Bit(x, 0) <==> Bit(y, 0);
      forall k: nat | k < width - 1
        ensures Bit(x / 2, k) <==> Bit(y / 2, k)
      {
        assert Bit(x, k + 1) <==> Bit(y, k + 1);
      }
      SameBitsSameWord(x / 2, y / 2, width - 1);
    }
  }

  /** A multiple of `Pow2(width)` does not touch the bits below `width`. */
  lemma {:induction false} BitsBelowMultiple(q: nat, low: nat, k: nat, width: nat)
    requires k < width
    ensures Bit(q * Pow2(width) + low, k) <==> Bit(low, k)
  {
    var half := q * Pow2(width - 1);
    assert q * Pow2(width) == 2 * half;
    if k > 0 { BitsBelowMultiple(q, low / 2, k - 1, width - 1); }
  }

  /** OR-ing flags below bit k into a value whose low k bits are clear adds them. */
  lemma {:induction false} OrDisjointIsSum(x: nat, y: nat, k: nat)
    requires x % Pow2(k) == 0 && y < Pow2(k)
    ensures Or(x, y) == x + y
  {
    if k > 0 && x != 0 && y != 0 {
      var p := Pow2(k - 1);
      var q := x / Pow2(k);
      assert x == 2 * (q * p);
      assert x / 2 == q * p;
      MultipleHasNoRemainder(q, p);
      OrDisjointIsSum(x / 2, y / 2, k - 1);
    }
  }

  lemma MultipleHasNoRemainder(q: nat, p: nat)
    requires p > 0
    ensures (q * p) % p == 0
  {
    QuotientAndRemainder(q, 0, p);
  }

  /** Row-major indices are unambiguous: `q * p + r` with `r < p` gives back q and r. */
  lemma QuotientAndRemainder(q: nat, r: nat, p: nat)
    requires r < p
    ensures (q * p + r) / p == q && (q * p + r) % p == r
  {
    var n := q * p + r;
    DivisionIsUnique(q, r, n / p, n % p, p);
  }

  lemma DivisionIsUnique(q: int, r: int, d: int, m: int, p: int)
    requires 0 <= r < p && 0 <= m < p
    requires q * p + r == d * p + m
    ensures q == d && r == m
  {
    assert (q - d) * p == m - r;
    MultipleIsFar(q - d, p);
  }

  lemma MultipleIsFar(e: int, p: int)
    requires p >= 0
    ensures e >= 1 ==> e * p >= p
    ensures e <= -1 ==> e * p + p <= 0
  {}
}
