/** Coverage masks as natural numbers.

    The solver stores a set of universe indices as the bits of a number:
    `mask | (1 << j)` adds index j.  Here bit j of m is read and written by
    recursion on j, which keeps every fact about masks a short induction. */
module Bitmask {

  /** 2^k, the value of `1 << k` for the shift amounts the solver uses. */
  function Pow2(k: nat): (p: nat)
    ensures p >= 1
  {
    if k == 0 then 1 else 2 * Pow2(k - 1)
  }

  /** Bit j of m is set, `(m >> j) & 1 == 1`. */
  predicate HasBit(m: nat, j: nat)
  {
    if j == 0 then m % 2 == 1 else HasBit(m / 2, j - 1)
  }

  /** m with bit j set, `m | (1 << j)`. */
  function SetBit(m: nat, j: nat): (r: nat)
  {
    if j == 0 then (if m % 2 == 1 then m else m + 1)
    else 2 * SetBit(m / 2, j - 1) + m % 2
  }

  /** The mask with bits 0 .. n-1 set, `(1 << n) - 1`. */
  function FullMask(n: nat): (r: nat)
  {
    Pow2(n) - 1
  }

  lemma {:induction false} ZeroHasNoBit(j: nat)
    ensures !HasBit(0, j)
  {
    if j > 0 {
      ZeroHasNoBit(j - 1);
    }
  }

  /** Setting a bit adds exactly that bit and never makes the number smaller. */
  lemma {:induction false} SetBitBits(m: nat, j: nat, k: nat)
    ensures SetBit(m, j) >= m
    ensures HasBit(SetBit(m, j), k) <==> HasBit(m, k) || k == j
  {
    if j == 0 {
      if m % 2 != 1 && k > 0 {
        assert (m + 1) / 2 == m / 2;
      }
    } else {
      var s := SetBit(m / 2, j - 1);
      assert SetBit(m, j) == 2 * s + m % 2;
      assert (2 * s + m % 2) / 2 == s;
      assert (2 * s + m % 2) % 2 == m % 2;
      if k == 0 {
        SetBitBits(m / 2, j - 1, 0);
      } else {
        SetBitBits(m / 2, j - 1, k - 1);
      }
    }
  }

  /** Setting a bit below n keeps a mask below 2^n. */
  lemma {:induction false} SetBitBound(m: nat, j: nat, n: nat)
    requires m < Pow2(n) && j < n
    ensures SetBit(m, j) < Pow2(n)
  {
    assert Pow2(n) == 2 * Pow2(n - 1);
    if j > 0 {
      SetBitBound(m / 2, j - 1, n - 1);
    }
  }

  /** Two masks below 2^n with the same bits below n are the same number. */
  lemma {:induction false} BitsDetermineMask(a: nat, b: nat, n: nat)
    requires a < Pow2(n) && b < Pow2(n)
    requires forall k: nat :: k < n ==> (HasBit(a, k) <==> HasBit(b, k))
    ensures a == b
  {
    if n > 0 {
      assert Pow2(n) == 2 * Pow2(n - 1);
      assert HasBit(a, 0) <==> HasBit(b, 0);
      forall k: nat | k < n - 1
        ensures HasBit(a / 2, k) <==> HasBit(b / 2, k)
      {
        assert HasBit(a, k + 1) <==> HasBit(b, k + 1);
      }
      BitsDetermineMask(a / 2, b / 2, n - 1);
    }
  }

  /** The full mask has exactly the bits 0 .. n-1. */
  lemma {:induction false} FullMaskBits(n: nat, k: nat)
    ensures HasBit(FullMask(n), k) <==> k < n
  {
    if n == 0 {
      ZeroHasNoBit(k);
    } else {
      assert Pow2(n) == 2 * Pow2(n - 1);
      assert FullMask(n) / 2 == FullMask(n - 1);
      if k > 0 {
        FullMaskBits(n - 1, k - 1);
      }
    }
  }
}
