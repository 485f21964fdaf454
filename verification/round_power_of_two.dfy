/** `RoundUpToPowerOfTwo` and `RoundDownToPowerOfTwo` for an unsigned type
    `bits` wide.  Values are naturals below 2^bits; the bit operations are
    `Words.And` / `Words.Or` / `Words.Not`, and `Words.Wrap` writes out the
    wrap-around of `value - 1` at zero and of the final `+ 1`. */
module RoundPowerOfTwo {
  import opened Words

  /** `p` is a power of two that is a value of the type. */
  predicate IsPowerOfTwo(bits: nat, p: nat)
  {
    exists k :: 0 <= k < bits && p == Pow2(k)
  }

  /** `RoundDownToPowerOfTwo`: `value & ~(p - 1)`.  It is the greatest
      multiple of `p` not above `value`. */
  function RoundDown(bits: nat, value: nat, p: nat): (r: nat)
    requires value < Pow2(bits) && IsPowerOfTwo(bits, p)
    ensures r == value - value % p
    ensures r % p == 0 && r <= value && value - r < p
  {
    var k :| 0 <= k < bits && p == Pow2(k);
    Pow2Divides(k, bits);
    RoundDownMask(bits, value, k, p, Pow2(bits));
    And(value, Not(bits, p - 1))
  }

  /** The mask `~(p - 1)` clears the bits below `p`. */
  lemma RoundDownMask(bits: nat, value: nat, k: nat, p: nat, n: nat)
    requires k < bits && p == Pow2(k) && n == Pow2(bits) && p <= n && value < n
    ensures var r := And(value, Not(bits, p - 1));
            r == value - value % p && r % p == 0 && r <= value && value - r < p
  {
    assert Not(bits, p - 1) == n - p;
    AndHighMaskAt(value, k, bits, p, n);
    LowBitsCleared(value, p);
  }

  /** Subtracting the remainder leaves a multiple. */
  lemma LowBitsCleared(value: nat, p: nat)
    requires p > 0
    ensures (value - value % p) % p == 0 && value % p < p
  {
    DivModSplit(value, p);
    ModOfDecomposition(value - value % p, p, value / p, 0);
  }

  /** `RoundUpToPowerOfTwo`: `((value - 1) | (p - 1)) + 1` in the unsigned
      type.  It is the least multiple of `p` not below `value`, reduced
      modulo 2^bits: zero stays zero, and a value above the last multiple
      of `p` wraps to zero. */
  function RoundUp(bits: nat, value: nat, p: nat): (r: nat)
    requires value < Pow2(bits) && IsPowerOfTwo(bits, p)
    ensures r < Pow2(bits) && r % p == 0
    ensures r == CeilMultiple(value, p) % Pow2(bits)
    ensures value <= Pow2(bits) - p ==> value <= r < value + p
  {
    var k :| 0 <= k < bits && p == Pow2(k);
    Pow2Divides(k, bits);
    RoundUpIsArithmetic(bits, value, k, p, Pow2(bits));
    Wrap(bits, Or(Wrap(bits, value - 1), p - 1) + 1)
  }

  /** The least multiple of `p` not below `value`, in unbounded arithmetic. */
  function CeilMultiple(value: nat, p: nat): nat
    requires p > 0
  {
    if value % p == 0 then value else value - value % p + p
  }

  /** The bit formula of `RoundUp` computes the arithmetic rounding. */
  lemma RoundUpIsArithmetic(bits: nat, value: nat, k: nat, p: nat, n: nat)
    requires p == Pow2(k) && n == Pow2(bits) && n % p == 0 && p <= n
    requires value < n
    ensures var r := Wrap(bits, Or(Wrap(bits, value - 1), p - 1) + 1);
            && r % p == 0
            && r == CeilMultiple(value, p) % n
            && (value <= n - p ==> value <= r < value + p)
  {
    if value == 0 {
      RoundUpAtZero(bits, k, p, n);
      ModOfDecomposition(0, p, 0, 0);
      ModOfDecomposition(0, n, 0, 0);
    } else {
      RoundUpPositive(bits, value, k, p, n);
    }
  }

  lemma RoundUpPositive(bits: nat, value: nat, k: nat, p: nat, n: nat)
    requires p == Pow2(k) && n == Pow2(bits) && n % p == 0 && p <= n
    requires 0 < value < n
    ensures var r := Wrap(bits, Or(Wrap(bits, value - 1), p - 1) + 1);
            && r % p == 0
            && r == CeilMultiple(value, p) % n
            && (value <= n - p ==> value <= r < value + p)
  {
    assert Wrap(bits, value - 1) == value - 1 by {
      ModOfDecomposition(value - 1, n, 0, value - 1);
    }
    var c := Or(value - 1, p - 1) + 1;
    RoundUpAbove(value, k, p);
    assert c % n % p == 0 by {
      ModMod(c, n, p);
    }
    if value <= n - p {
      ModOfDecomposition(c, n, 0, c);
    }
  }

  /** At zero, `value - 1` wraps to all ones and the `+ 1` wraps back. */
  lemma RoundUpAtZero(bits: nat, k: nat, p: nat, n: nat)
    requires p == Pow2(k) && n == Pow2(bits) && n % p == 0 && p <= n
    ensures Wrap(bits, Or(Wrap(bits, -1), p - 1) + 1) == 0
  {
    var x := Wrap(bits, -1);
    assert x == n - 1 by {
      ModOfDecomposition(-1, n, -1, n - 1);
    }
    assert x % p == p - 1 by {
      var t := n / p;
      assert n == t * p;
      ModOfDecomposition(x, p, t - 1, p - 1);
    }
    OrLowMaskAt(x, k, p);
    ModOfDecomposition(n, n, 1, 0);
  }

  /** For a positive value, `((value - 1) | (p - 1)) + 1` is the least
      multiple of `p` not below `value`. */
  lemma RoundUpAbove(value: nat, k: nat, p: nat)
    requires value >= 1 && p == Pow2(k)
    ensures var c := Or(value - 1, p - 1) + 1;
            && c == CeilMultiple(value, p)
            && c % p == 0 && value <= c < value + p
  {
    OrLowMaskAt(value - 1, k, p);
    CeilOfSuccessor(value - 1, p);
  }

  /** Clearing the low bits of `x` and adding `p` gives the least multiple of
      `p` not below `x + 1`. */
  lemma CeilOfSuccessor(x: nat, p: nat)
    requires p > 0
    ensures var c := x - x % p + p;
            c == CeilMultiple(x + 1, p) && c % p == 0 && x + 1 <= c < x + 1 + p
  {
    var q := x / p;
    var c := x - x % p + p;
    assert c == (q + 1) * p by {
      assert x == q * p + x % p;
    }
    if x % p == p - 1 {
      ModOfDecomposition(x + 1, p, q + 1, 0);
    } else {
      ModOfDecomposition(x + 1, p, q, x % p + 1);
    }
    ModOfDecomposition(c, p, q + 1, 0);
  }

  /** Rounding down twice is rounding down once. */
  lemma RoundDownIdempotent(bits: nat, value: nat, p: nat)
    requires value < Pow2(bits) && IsPowerOfTwo(bits, p)
    ensures RoundDown(bits, RoundDown(bits, value, p), p) == RoundDown(bits, value, p)
  {
  }

  /** Rounding up twice is rounding up once. */
  lemma RoundUpIdempotent(bits: nat, value: nat, p: nat)
    requires value < Pow2(bits) && IsPowerOfTwo(bits, p)
    ensures RoundUp(bits, RoundUp(bits, value, p), p) == RoundUp(bits, value, p)
  {
    var r := RoundUp(bits, value, p);
    ModOfDecomposition(r, Pow2(bits), 0, r);
  }

  /** A value is left alone by rounding down exactly when it is a multiple. */
  lemma RoundDownFixedIff(bits: nat, value: nat, p: nat)
    requires value < Pow2(bits) && IsPowerOfTwo(bits, p)
    ensures RoundDown(bits, value, p) == value <==> value % p == 0
  {
  }

  /** A value is left alone by rounding up exactly when it is a multiple. */
  lemma RoundUpFixedIff(bits: nat, value: nat, p: nat)
    requires value < Pow2(bits) && IsPowerOfTwo(bits, p)
    ensures RoundUp(bits, value, p) == value <==> value % p == 0
  {
    ModOfDecomposition(value, Pow2(bits), 0, value);
  }

  /** Zero rounds up to zero, in spite of `value - 1` wrapping around. */
  lemma RoundUpZero(bits: nat, p: nat)
    requires IsPowerOfTwo(bits, p)
    ensures RoundUp(bits, 0, p) == 0
  {
    ModOfDecomposition(0, Pow2(bits), 0, 0);
  }

  /** Without wrap-around, rounding up is rounding down, plus `p` when the
      value is not a multiple. */
  lemma RoundUpFromRoundDown(bits: nat, value: nat, p: nat)
    requires value < Pow2(bits) && IsPowerOfTwo(bits, p)
    requires value <= Pow2(bits) - p
    ensures RoundUp(bits, value, p)
            == if value % p == 0 then RoundDown(bits, value, p) else RoundDown(bits, value, p) + p
  {
    var up := CeilMultiple(value, p);
    assert up < Pow2(bits);
    ModOfDecomposition(up, Pow2(bits), 0, up);
  }
}
