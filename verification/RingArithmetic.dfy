/** The arithmetic of `zix/ring.cpp`: rounding a request up to a power of two and
    computing free and used space from two heads under unsigned wrap-around. */
module RingArithmetic {
  import opened Bits

  /** The digits of `x` smeared downwards over a window of `n` positions. */
  ghost predicate Smeared(z: nat, x: nat, n: nat) {
    forall i: nat :: Bit(z, i) <==> WindowBit(x, i, n)
  }

  ghost predicate WindowBit(x: nat, i: nat, n: nat) {
    exists j: nat :: i <= j < i + n && Bit(x, j)
  }

  lemma SmearStart(x: nat)
    ensures Smeared(x, x, 1)
  {
    forall i: nat
      ensures Bit(x, i) <==> WindowBit(x, i, 1)
    {
      if Bit(x, i) {
        assert i <= i < i + 1 && Bit(x, i);
      }
    }
  }

  lemma SmearStep(z: nat, x: nat, n: nat)
    requires Smeared(z, x, n)
    ensures Smeared(BitOr(z, Shr(z, n)), x, 2 * n)
  {
    var z' := BitOr(z, Shr(z, n));
    forall i: nat
      ensures Bit(z', i) <==> WindowBit(x, i, 2 * n)
    {
      OrBit(z, Shr(z, n), i);
      ShrBit(z, n, i);
      assert Bit(z', i) <==> WindowBit(x, i, n) || WindowBit(x, n + i, n);
      if WindowBit(x, i, 2 * n) {
        var j: nat :| i <= j < i + 2 * n && Bit(x, j);
        assert WindowBit(x, i, n) || WindowBit(x, n + i, n);
      }
    }
  }

  /** A 32-position smear of a 32-bit number sets every digit below its top one. */
  lemma SmearedValue(z: nat, x: nat) returns (k: nat)
    requires Smeared(z, x, 32) && x < U32_MODULUS
    ensures k <= 32 && x < Pow2(k) && (k > 0 ==> Pow2(k - 1) <= x)
    ensures z == Pow2(k) - 1
  {
    Pow2Values();
    k := DigitCount(x);
    if k > 32 {
      Pow2Monotone(32, k - 1);
    }
    forall i: nat
      ensures Bit(z, i) <==> i < k
    {
      if Bit(z, i) {
        var j: nat :| i <= j < i + 32 && Bit(x, j);
        BitImpliesLarge(x, j);
        if j >= k {
          Pow2Monotone(k, j);
        }
      }
      if i < k {
        Pow2Monotone(i, k - 1);
        var j := LargeHasBit(x, i);
        BitImpliesLarge(x, j);
        if j >= k {
          Pow2Monotone(k, j);
        }
        assert WindowBit(x, i, 32);
      }
    }
    OnesValue(z, k);
  }

  /** The number of binary digits of `x`. */
  function DigitCount(x: nat): (k: nat)
    ensures x < Pow2(k)
    ensures k > 0 ==> Pow2(k - 1) <= x
    ensures k == 0 <==> x == 0
  {
    if x == 0 then 0 else DigitCount(x / 2) + 1
  }

  /** `p` is the least power of two that is at least `n`. */
  ghost predicate IsLeastPow2(p: nat, n: nat) {
    && (exists k: nat :: k < 32 && p == Pow2(k))
    && n <= p
    && (forall k: nat :: n <= Pow2(k) ==> p <= Pow2(k))
  }

  /** `next_power_of_two`. Requests of 0 and above 2^31 wrap round to 0; on all
      others the result is the least power of two holding the request. */
  method NextPowerOfTwo(request: nat) returns (size: nat)
    requires request < U32_MODULUS
    ensures 1 <= request <= 0x8000_0000 ==> IsLeastPow2(size, request)
    ensures request == 0 || request > 0x8000_0000 ==> size == 0
  {
    size := U32(request - 1);
    ghost var x := size;
    SmearStart(x);
    SmearStep(size, x, 1);
    size := BitOr(size, Shr(size, 1));
    SmearStep(size, x, 2);
    size := BitOr(size, Shr(size, 2));
    SmearStep(size, x, 4);
    size := BitOr(size, Shr(size, 4));
    SmearStep(size, x, 8);
    size := BitOr(size, Shr(size, 8));
    SmearStep(size, x, 16);
    size := BitOr(size, Shr(size, 16));
    RoundUp(request, x, size);
    size := U32(size + 1);
  }

  lemma RoundUp(request: nat, x: nat, z: nat)
    requires request < U32_MODULUS && x == U32(request - 1) && Smeared(z, x, 32)
    ensures 1 <= request <= 0x8000_0000 ==> IsLeastPow2(U32(z + 1), request)
    ensures request == 0 || request > 0x8000_0000 ==> U32(z + 1) == 0
  {
    var m := SmearedValue(z, x);
    assert x + 1 == if request == 0 then U32_MODULUS else request;
    PowerAbove(x + 1, m);
    assert z + 1 == Pow2(m);
  }

  /** For `n` in 2^(m-1)+1 .. 2^m, the least power of two holding `n` is 2^m,
      which fits 32 bits exactly when `n` is at most 2^31. */
  lemma PowerAbove(n: nat, m: nat)
    requires 1 <= n <= Pow2(m) && m <= 32
    requires m > 0 ==> Pow2(m - 1) < n
    ensures n <= 0x8000_0000 ==> m < 32 && Pow2(m) < U32_MODULUS && IsLeastPow2(Pow2(m), n)
    ensures n > 0x8000_0000 ==> Pow2(m) == U32_MODULUS
  {
    Pow2Values();
    if m < 32 {
      Pow2Monotone(m, 31);
    }
    forall k: nat | n <= Pow2(k)
      ensures Pow2(m) <= Pow2(k)
    {
      if k < m {
        Pow2Monotone(k, m - 1);
      } else {
        Pow2Monotone(m, k);
      }
    }
  }

  /** A ring size and its mask as `zix_ring_new` sets them up for a request of
      1 to 2^31 bytes. */
  ghost predicate ValidSize(size: nat) {
    exists k: nat :: k < 32 && size == Pow2(k)
  }

  lemma ValidSizeBound(size: nat)
    requires ValidSize(size)
    ensures 1 <= size <= 0x8000_0000 && Mask(size) == size - 1
  {
    Pow2Values();
    var k: nat :| k < 32 && size == Pow2(k);
    Pow2Monotone(k, 31);
  }

  lemma MaskWraps(x: nat, size: nat)
    requires ValidSize(size)
    ensures BitAnd(x, size - 1) == x % size
  {
    var k: nat :| k < 32 && size == Pow2(k);
    MaskIsModulo(x, k);
  }

  /** The mask `zix_ring_new` derives from a size. */
  function Mask(size: nat): nat {
    U32(size - 1)
  }

  /** `read_space_internal`. */
  function ReadSpace(size: nat, r: nat, w: nat): nat {
    if r < w then w - r
    else BitAnd(U32(U32(w - r) + size), Mask(size))
  }

  /** `write_space_internal`. */
  function WriteSpace(size: nat, r: nat, w: nat): nat {
    if r == w then U32(size - 1)
    else if r < w then U32(BitAnd(U32(U32(r - w) + size), Mask(size)) - 1)
    else U32(U32(r - w) - 1)
  }

  /** A new ring claims no more room than it has exactly for requests of 1 to 2^31 bytes:
      the others get a ring of no bytes that claims 2^32 - 1. */
  lemma NewRingClaims(request: nat, size: nat)
    requires request < U32_MODULUS
    requires 1 <= request <= 0x8000_0000 ==> IsLeastPow2(size, request)
    requires request == 0 || request > 0x8000_0000 ==> size == 0
    ensures WriteSpace(size, 0, 0) <= size <==> 1 <= request <= 0x8000_0000
    ensures size == 0 ==> WriteSpace(size, 0, 0) == U32_MODULUS - 1
  {
    if 1 <= request <= 0x8000_0000 {
      ValidSizeBound(size);
    }
  }

  ghost predicate IsPow2(n: nat) {
    exists k: nat :: n == Pow2(k)
  }

  /** The rounded size leaves no room beyond the request exactly at powers of two. */
  lemma RoundingIsExact(p: nat, n: nat)
    requires IsLeastPow2(p, n)
    ensures p == n <==> IsPow2(n)
  {
    if k: nat :| n == Pow2(k) {
      assert n <= Pow2(k);
    }
  }

  /** The documentation promises that a ring holds at most one byte less than was asked
      for. A new ring claims no more than that exactly for requests of a power of two. */
  lemma DocumentedLimitExactly(request: nat, size: nat)
    requires 1 <= request <= 0x8000_0000 && IsLeastPow2(size, request)
    ensures WriteSpace(size, 0, 0) <= request - 1 <==> IsPow2(request)
  {
    ValidSizeBound(size);
    RoundingIsExact(size, request);
  }

  lemma SmallModulo(d: int, m: nat)
    requires -(m as int) <= d < m
    ensures d % m == if d < 0 then d + m else d
  {
    if d < 0 {
      ModOf(-1, d + m, m);
    } else {
      ModOf(0, d, m);
    }
  }

  lemma DifferenceWraps(size: nat, a: nat, b: nat)
    requires a <= b < size <= 0x8000_0000
    ensures U32(U32(a - b) + size) == a - b + size
  {
    assert U32(a - b) == if a == b then 0 else a - b + U32_MODULUS;
  }

  lemma MaskedDifference(size: nat, a: nat, b: nat)
    requires ValidSize(size) && a < size && b < size && a <= b
    ensures BitAnd(U32(U32(a - b) + size), Mask(size)) == if a == b then 0 else a - b + size
  {
    ValidSizeBound(size);
    DifferenceWraps(size, a, b);
    var t := a - b + size;
    MaskWraps(t, size);
    if a == b {
      ModOf(1, 0, size);
    } else {
      ModOf(0, t, size);
    }
  }

  lemma SmallU32(x: nat)
    requires x < U32_MODULUS
    ensures U32(x) == x
  {
  }

  lemma ReadSpaceValue(size: nat, r: nat, w: nat)
    requires ValidSize(size) && r < size && w < size
    ensures ReadSpace(size, r, w) == if w < r then w - r + size else w - r
  {
    if w <= r {
      MaskedDifference(size, w, r);
    }
  }

  lemma WriteSpaceValue(size: nat, r: nat, w: nat)
    requires ValidSize(size) && r < size && w < size
    ensures WriteSpace(size, r, w) == if r <= w then r - w + size - 1 else r - w - 1
  {
    ValidSizeBound(size);
    if r == w {
      assert WriteSpace(size, r, w) == size - 1;
    } else if r < w {
      MaskedDifference(size, r, w);
      var masked := BitAnd(U32(U32(r - w) + size), Mask(size));
      assert WriteSpace(size, r, w) == U32(masked - 1);
      SmallU32(masked - 1);
    } else {
      assert WriteSpace(size, r, w) == U32(U32(r - w) - 1);
      SmallU32(r - w);
      SmallU32(r - w - 1);
    }
  }

  /** Under wrap-around the two helpers measure the used and the free part of the
      ring, and together they always account for all but one byte of it. */
  lemma SpaceLaws(size: nat, r: nat, w: nat)
    requires ValidSize(size) && r < size && w < size
    ensures ReadSpace(size, r, w) == (w - r) % size
    ensures ReadSpace(size, r, w) + WriteSpace(size, r, w) == size - 1
  {
    SmallModulo(w - r, size);
    ReadSpaceValue(size, r, w);
    WriteSpaceValue(size, r, w);
  }

  /** A position at most one lap ahead, brought back into the ring. */
  function Wrap(j: nat, size: nat): nat {
    if j < size then j else j - size
  }

  /** The distance from one position of the ring forward to another. */
  function Gap(r: nat, w: nat, size: nat): (g: nat)
    requires r < size && w < size
    ensures g < size && w == Wrap(r + g, size)
  {
    if r <= w then w - r else w - r + size
  }

  lemma SpacesAreGaps(size: nat, r: nat, w: nat)
    requires ValidSize(size) && r < size && w < size
    ensures size <= 0x8000_0000
    ensures ReadSpace(size, r, w) == Gap(r, w, size)
    ensures WriteSpace(size, r, w) == size - 1 - Gap(r, w, size)
  {
    ValidSizeBound(size);
    SpaceLaws(size, r, w);
    SmallModulo(w - r, size);
  }

  /** Advancing a head by mask stays exact: the 32-bit sum does not overflow and
      the mask subtracts at most one lap. */
  lemma MaskedHead(x: nat, size: nat)
    requires ValidSize(size) && x < 2 * size
    ensures U32(x) == x
    ensures BitAnd(U32(x), size - 1) == Wrap(x, size)
  {
    ValidSizeBound(size);
    MaskWraps(x, size);
    if x < size {
      ModOf(0, x, size);
    } else {
      ModOf(1, x - size, size);
    }
  }
}
