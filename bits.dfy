/**
 * Unsigned machine arithmetic used by the ring buffer: the width of `size_t`,
 * bitwise AND on naturals, and the power-of-two test the buffer's template
 * parameter must pass at compile time.
 */
module Bits {

  /** Number of distinct `size_t` values (a 64-bit target). */
  const SizeTModulus: nat := 0x1_0000_0000_0000_0000

  /** n is 1, 2, 4, 8, ... */
  predicate IsPowerOfTwo(n: nat)
    decreases n
  {
    n == 1 || (n > 1 && n % 2 == 0 && IsPowerOfTwo(n / 2))
  }

  /** Bitwise AND of two unsigned values, bit by bit from the lowest. */
  function BitAnd(x: nat, y: nat): (r: nat)
    ensures r <= x && r <= y
    decreases x
  {
    if x == 0 || y == 0 then 0
    else 2 * BitAnd(x / 2, y / 2) + (if x % 2 == 1 && y % 2 == 1 then 1 else 0)
  }

  /** `a - b` on `size_t`: wraps around modulo 2^64. */
  function SizeTSub(a: nat, b: nat): (r: nat)
    requires a < SizeTModulus && b < SizeTModulus
    ensures r < SizeTModulus
    ensures (r + b) % SizeTModulus == a
  {
    (a - b) % SizeTModulus
  }

  /** The compile-time check `(Size & (Size - 1)) == 0`, with `Size - 1` computed in `size_t`. */
  predicate StaticAssert(size: nat)
    requires size < SizeTModulus
  {
    BitAnd(size, SizeTSub(size, 1)) == 0
  }

  /** A template argument that the buffer can actually work with: the static check plus Size > 0. */
  predicate ValidSize(size: nat)
  {
    0 < size < SizeTModulus && StaticAssert(size)
  }

  // ---------------------------------------------------------------------------
  // Arithmetic helpers

  lemma DivModUnique(x: int, d: int, q: int, r: int)
    requires d > 0 && 0 <= r < d && x == d * q + r
    ensures x / d == q && x % d == r
  {
    var q', r' := x / d, x % d;
    if q' < q {
      MulDistance(d, q', q - q');
      MulAtLeast(d, q - q');
    } else if q' > q {
      MulDistance(d, q, q' - q);
      MulAtLeast(d, q' - q);
    }
  }

  lemma MulDistance(d: int, a: int, e: int)
    ensures d * (a + e) == d * a + d * e
  {
  }

  lemma MulAtLeast(d: int, e: int)
    requires d > 0 && e >= 1
    ensures d * e >= d
  {
  }

  lemma HalveMod(x: nat, m: nat)
    requires m > 0
    ensures x % (2 * m) == 2 * ((x / 2) % m) + x % 2
  {
    var q, b := x / 2, x % 2;
    var t, c := q / m, q % m;
    assert q == m * t + c;
    assert x == 2 * q + b;
    assert x == (2 * m) * t + (2 * c + b);
    DivModUnique(x, 2 * m, t, 2 * c + b);
  }

  // ---------------------------------------------------------------------------
  // Masking with Size - 1 is reduction modulo Size

  /** For a power of two n, `x & (n - 1)` is `x % n`: the masked index wraps around the buffer. */
  lemma {:induction false} MaskIsMod(x: nat, n: nat)
    requires IsPowerOfTwo(n)
    ensures BitAnd(x, n - 1) == x % n
    decreases n
  {
    if n > 1 {
      var m := n / 2;
      assert n - 1 > 0 && (n - 1) % 2 == 1 && (n - 1) / 2 == m - 1;
      MaskIsMod(x / 2, m);
      if x > 0 {
        HalveMod(x, m);
      }
    }
  }

  lemma {:induction false} BitAndSelf(x: nat)
    ensures BitAnd(x, x) == x
    decreases x
  {
    if x > 0 {
      BitAndSelf(x / 2);
    }
  }

  /** A positive n with `n & (n - 1) == 0` is a power of two. */
  lemma {:induction false} PowerOfTwoFromBitAnd(n: nat)
    requires n > 0 && BitAnd(n, n - 1) == 0
    ensures IsPowerOfTwo(n)
    decreases n
  {
    if n > 1 {
      if n % 2 == 1 {
        BitAndSelf(n / 2);
        assert false;
      } else {
        assert (n - 1) / 2 == n / 2 - 1 && (n - 1) % 2 == 1;
        assert BitAnd(n, n - 1) == 2 * BitAnd(n / 2, n / 2 - 1);
        PowerOfTwoFromBitAnd(n / 2);
      }
    }
  }

  /** The corrected size check accepts exactly the powers of two that fit in `size_t`. */
  lemma ValidSizeIsPowerOfTwo(n: nat)
    requires n < SizeTModulus
    ensures ValidSize(n) <==> IsPowerOfTwo(n)
  {
    if IsPowerOfTwo(n) {
      assert n > 0;
      MaskIsMod(n, n);
      assert StaticAssert(n);
    }
    if ValidSize(n) {
      PowerOfTwoFromBitAnd(n);
    }
  }

  /**
   * The check as written also admits Size == 0: `Size - 1` wraps to 2^64 - 1, the AND is 0,
   * and the first push computes next index `(0 + 1) & Mask == 1`, which differs from the read
   * index 0, so it goes on to store into slot 0 of a zero-length array.
   */
  lemma StaticAssertAdmitsZero()
    ensures StaticAssert(0) && !IsPowerOfTwo(0) && !ValidSize(0)
    ensures BitAnd(0 + 1, SizeTSub(0, 1)) == 1
  {
  }

  // ---------------------------------------------------------------------------
  // Divisibility of 2^64 by the buffer size

  /** A smaller power of two divides a larger one; k is the quotient. */
  lemma {:induction false} PowerOfTwoDivides(a: nat, b: nat) returns (k: nat)
    requires IsPowerOfTwo(a) && IsPowerOfTwo(b) && a <= b
    ensures b == a * k
    decreases a
  {
    if a == 1 {
      k := b;
    } else {
      assert b > 1;
      k := PowerOfTwoDivides(a / 2, b / 2);
      assert b == 2 * (b / 2);
    }
  }

  function Pow2(k: nat): (r: nat)
    ensures IsPowerOfTwo(r)
  {
    if k == 0 then 1 else 2 * Pow2(k - 1)
  }

  lemma {:induction false} Pow2Add(a: nat, b: nat)
    ensures Pow2(a + b) == Pow2(a) * Pow2(b)
    decreases a
  {
    if a > 0 {
      Pow2Add(a - 1, b);
    }
  }

  lemma SizeTModulusIsPowerOfTwo()
    ensures IsPowerOfTwo(SizeTModulus)
  {
    assert Pow2(2) == 4;
    Pow2Add(2, 2);
    Pow2Add(4, 4);
    Pow2Add(8, 8);
    Pow2Add(16, 16);
    Pow2Add(32, 32);
    assert Pow2(64) == SizeTModulus;
  }

  lemma AddMultipleMod(x: int, n: int, k: int)
    requires n > 0
    ensures (x + n * k) % n == x % n
  {
    MulDistance(n, x / n, k);
    DivModUnique(x + n * k, n, x / n + k, x % n);
  }

  /**
   * For indices below a power-of-two n, the `size_t` difference masked with n - 1 is
   * the circular distance `(w - r) mod n`, whichever index is ahead.
   */
  lemma MaskedDistance(w: nat, r: nat, n: nat)
    requires IsPowerOfTwo(n) && n < SizeTModulus && w < n && r < n
    ensures BitAnd(SizeTSub(w, r), n - 1) == (w - r) % n
  {
    MaskIsMod(SizeTSub(w, r), n);
    if w < r {
      WrappedDistance(w, r, n);
    } else {
      DivModUnique(w - r, n, 0, w - r);
    }
  }

  lemma WrapNegative(x: int)
    requires x < 0 && x + SizeTModulus > 0
    ensures x % SizeTModulus == x + SizeTModulus
  {
    DivModUnique(x, SizeTModulus, -1, x + SizeTModulus);
  }

  lemma WrappedDistance(w: nat, r: nat, n: nat)
    requires IsPowerOfTwo(n) && n < SizeTModulus && w < r < n
    ensures SizeTSub(w, r) % n == (w - r) % n
  {
    SizeTModulusIsPowerOfTwo();
    var k := PowerOfTwoDivides(n, SizeTModulus);
    WrapNegative(w - r);
    AddMultipleMod(w - r, n, k);
  }
}
