/** Bitwise operations on unsigned words, spelled out bit by bit, and the
    powers of two that the hash table uses as bucket counts. */
module Bits {

  /** A 32-bit `unsigned`. */
  type Word = x: int | 0 <= x < 0x1_0000_0000

  function Pow2(n: nat): (r: nat)
    ensures r > 0
  {
    if n == 0 then 1 else 2 * Pow2(n - 1)
  }

  /** C's `x & y`. */
  function And(x: nat, y: nat): (r: nat)
    decreases x
  {
    if x == 0 then 0
    else 2 * And(x / 2, y / 2) + (if x % 2 == 1 && y % 2 == 1 then 1 else 0)
  }

  /** C's `x >> n`. */
  function Shr(x: nat, n: nat): (r: nat)
    decreases n
  {
    if n == 0 then x else Shr(x / 2, n - 1)
  }

  /** Shift and mask split a word into quotient and remainder by a power of two. */
  lemma {:induction false} ShiftMaskSplit(x: nat, n: nat)
    ensures x == Shr(x, n) * Pow2(n) + And(x, Pow2(n) - 1)
    ensures And(x, Pow2(n) - 1) < Pow2(n)
    decreases n
  {
    if n == 0 {
      AndZero(x);
    } else {
      AndMaskUnfold(x, n);
      ShiftMaskSplit(x / 2, n - 1);
      MulTwice(Shr(x, n), Pow2(n - 1));
    }
  }

  lemma {:induction false} AndZero(x: nat)
    ensures And(x, 0) == 0
    decreases x
  {
    if x != 0 { AndZero(x / 2); }
  }

  lemma AndMaskUnfold(x: nat, n: nat)
    requires n > 0
    ensures And(x, Pow2(n) - 1) == 2 * And(x / 2, Pow2(n - 1) - 1) + x % 2
  {
    var p := Pow2(n - 1);
    assert (2 * p - 1) / 2 == p - 1 && (2 * p - 1) % 2 == 1;
  }

  lemma MulTwice(a: nat, b: nat)
    ensures a * (2 * b) == 2 * (a * b)
  {
  }

  lemma MulSucc(a: nat, d: nat)
    ensures (a + 1) * d == a * d + d && a * d >= 0
  {
  }

  lemma {:induction false} MulGap(a: nat, b: nat, d: nat)
    requires a < b
    ensures a * d + d <= b * d
    decreases b
  {
    MulSucc(b - 1, d);
    if a < b - 1 { MulGap(a, b - 1, d); }
  }

  lemma SplitUnique(d: nat, q: nat, r: nat, p: nat, m: nat)
    requires q * d + r == p * d + m && r < d && m < d
    ensures r == m
  {
    if q < p { MulGap(q, p, d); } else if p < q { MulGap(p, q, d); }
  }

  lemma DivIs(x: nat, d: nat, q: nat, r: nat)
    requires x == q * d + r && r < d
    ensures x / d == q
  {
    var p, m := x / d, x % d;
    assert x == p * d + m;
    if q < p { MulGap(q, p, d); } else if p < q { MulGap(p, q, d); }
  }

  lemma ModIs(x: nat, d: nat, q: nat, r: nat)
    requires x == q * d + r && r < d
    ensures x % d == r
  {
    SplitUnique(d, q, r, x / d, x % d);
  }

  /** The number of chunks of size `d` that cover `n`. */
  ghost predicate IsCeilDiv(n: nat, d: nat, r: nat) {
    (n == 0 && r == 0) || (r > 0 && (r - 1) * d < n <= r * d)
  }

  /** The shift-and-mask expression computes the rounded-up quotient. */
  lemma ShiftMaskIsCeil(n: nat, lg: nat)
    ensures IsCeilDiv(n, Pow2(lg), Shr(n, lg) + (if And(n, Pow2(lg) - 1) != 0 then 1 else 0))
  {
    ShiftMaskSplit(n, lg);
    var q, d := Shr(n, lg), Pow2(lg);
    MulPred(q, d);
    MulPred(q + 1, d);
  }

  lemma MulPred(q: nat, d: nat)
    ensures (q - 1) * d == q * d - d
  {
  }

  /** Doubling the table keeps an index or moves it up by the old size. */
  lemma {:induction false} AndDoubleMask(x: nat, lg: nat)
    ensures And(x, Pow2(lg) - 1) < Pow2(lg)
    ensures And(x, Pow2(lg + 1) - 1) == And(x, Pow2(lg) - 1)
         || And(x, Pow2(lg + 1) - 1) == And(x, Pow2(lg) - 1) + Pow2(lg)
    decreases lg
  {
    AndMaskUnfold(x, lg + 1);
    if lg == 0 {
      AndZero(x);
      AndZero(x / 2);
    } else {
      AndMaskUnfold(x, lg);
      AndDoubleMask(x / 2, lg - 1);
    }
  }
}
