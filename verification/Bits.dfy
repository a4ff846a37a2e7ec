/** Unsigned machine arithmetic on naturals: 32-bit wrap-around, shifts, and the
    bitwise operators defined one binary digit at a time. */
module Bits {
  type byte = x: nat | x < 256

  const U32_MODULUS: nat := 0x1_0000_0000

  /** The value a `uint32_t` holds after an operation whose exact result is `x`. */
  function U32(x: int): nat {
    x % U32_MODULUS
  }

  function Pow2(k: nat): (p: nat)
    ensures p >= 1
  {
    if k == 0 then 1 else 2 * Pow2(k - 1)
  }

  function Shr(x: nat, s: nat): nat {
    if s == 0 then x else Shr(x / 2, s - 1)
  }

  function BitOr(x: nat, y: nat): nat
    decreases x + y
  {
    if x == 0 && y == 0 then 0
    else (if x % 2 == 1 || y % 2 == 1 then 1 else 0) + 2 * BitOr(x / 2, y / 2)
  }

  function BitAnd(x: nat, y: nat): nat
    decreases x
  {
    if x == 0 then 0
    else (if x % 2 == 1 && y % 2 == 1 then 1 else 0) + 2 * BitAnd(x / 2, y / 2)
  }

  /** Binary digit `i` of `x`. */
  predicate Bit(x: nat, i: nat) {
    if i == 0 then x % 2 == 1 else Bit(x / 2, i - 1)
  }

  lemma {:induction false} Pow2Monotone(j: nat, k: nat)
    requires j <= k
    ensures Pow2(j) <= Pow2(k)
    ensures j < k ==> 2 * Pow2(j) <= Pow2(k)
    decreases k - j
  {
    if j < k {
      Pow2Monotone(j, k - 1);
    }
  }

  lemma Pow2Values()
    ensures Pow2(31) == 0x8000_0000 && Pow2(32) == U32_MODULUS
  {
    assert Pow2(8) == 256;
    assert Pow2(16) == 65536;
    assert Pow2(24) == 0x100_0000;
  }

  /** `x & (2^k - 1)` is `x mod 2^k`. */
  lemma {:induction false} MaskIsModulo(x: nat, k: nat)
    ensures BitAnd(x, Pow2(k) - 1) == x % Pow2(k)
    decreases k
  {
    if k == 0 {
      AndZero(x);
    } else if x != 0 {
      var p := Pow2(k - 1);
      MaskIsModulo(x / 2, k - 1);
      assert (2 * p - 1) / 2 == p - 1 && (2 * p - 1) % 2 == 1;
      ModDouble(x, p);
    } else {
      ModOf(0, 0, Pow2(k));
    }
  }

  lemma {:induction false} AndZero(x: nat)
    ensures BitAnd(x, 0) == 0
  {
    if x != 0 {
      AndZero(x / 2);
    }
  }

  /** Division with remainder determines the remainder. */
  lemma ModOf(q: int, r: nat, m: nat)
    requires r < m
    ensures (q * m + r) % m == r
  {
    var x := q * m + r;
    var q', r' := x / m, x % m;
    assert x == q' * m + r';
    assert (q - q') * m == r' - r;
    if q - q' >= 1 {
      MulAtLeast(q - q', m);
    } else if q - q' <= -1 {
      MulAtLeast(q' - q, m);
    }
  }

  /** And the quotient. */
  lemma QuotientOf(q: nat, r: nat, m: nat)
    requires r < m
    ensures (q * m + r) / m == q
  {
    var x := q * m + r;
    ModOf(q, r, m);
    assert x == x / m * m + x % m;
    CancelFactor(x / m, q, m);
  }

  lemma CancelFactor(a: nat, b: nat, m: nat)
    requires m > 0 && a * m == b * m
    ensures a == b
  {
  }

  lemma MulAtLeast(a: nat, m: nat)
    requires a >= 1
    ensures a * m >= m
  {
  }

  lemma MulMonotone(a: nat, b: nat, m: nat)
    requires a <= b
    ensures a * m <= b * m
  {
  }

  lemma ModDouble(x: nat, p: nat)
    requires p >= 1
    ensures x % (2 * p) == x % 2 + 2 * ((x / 2) % p)
  {
    var h := x / 2;
    var q, r := h / p, h % p;
    assert h == q * p + r;
    assert x == q * (2 * p) + (x % 2 + 2 * r);
    ModOf(q, x % 2 + 2 * r, 2 * p);
  }

  // Binary digits of the operators.

  lemma {:induction false} OrBit(x: nat, y: nat, i: nat)
    ensures Bit(BitOr(x, y), i) == (Bit(x, i) || Bit(y, i))
    decreases i
  {
    if x == 0 && y == 0 {
      ZeroBit(i);
    } else {
      var low := if x % 2 == 1 || y % 2 == 1 then 1 else 0;
      var z := low + 2 * BitOr(x / 2, y / 2);
      assert z / 2 == BitOr(x / 2, y / 2) && z % 2 == low;
      if i > 0 {
        OrBit(x / 2, y / 2, i - 1);
      }
    }
  }

  lemma {:induction false} ZeroBit(i: nat)
    ensures !Bit(0, i)
  {
    if i > 0 {
      ZeroBit(i - 1);
    }
  }

  lemma {:induction false} ShrBit(x: nat, s: nat, i: nat)
    ensures Bit(Shr(x, s), i) == Bit(x, s + i)
    decreases s
  {
    if s > 0 {
      ShrBit(x / 2, s - 1, i);
    }
  }

  lemma {:induction false} BitImpliesLarge(x: nat, i: nat)
    requires Bit(x, i)
    ensures x >= Pow2(i)
    decreases i
  {
    if i > 0 {
      BitImpliesLarge(x / 2, i - 1);
    }
  }

  /** A number of at least 2^i has a digit set at position `i` or above. */
  lemma {:induction false} LargeHasBit(x: nat, i: nat) returns (j: nat)
    requires x >= Pow2(i)
    ensures j >= i && Bit(x, j)
    decreases x
  {
    if i == 0 && x % 2 == 1 {
      j := 0;
    } else {
      j := LargeHasBit(x / 2, if i == 0 then 0 else i - 1);
      j := j + 1;
    }
  }

  /** The number whose set digits are exactly 0..k-1 is 2^k - 1. */
  lemma {:induction false} OnesValue(x: nat, k: nat)
    requires forall i: nat :: Bit(x, i) <==> i < k
    ensures x == Pow2(k) - 1
    decreases k
  {
    if k == 0 {
      if x >= 1 {
        var j := LargeHasBit(x, 0);
      }
    } else {
      forall i: nat
        ensures Bit(x / 2, i) <==> i < k - 1
      {
        assert Bit(x, i + 1) == Bit(x / 2, i);
      }
      OnesValue(x / 2, k - 1);
      assert Bit(x, 0);
    }
  }

  /** A mask above all digits of `x` selects nothing. */
  lemma {:induction false} AndAbove(x: nat, k: nat)
    requires x < Pow2(k)
    ensures BitAnd(x, Pow2(k)) == 0
    decreases k
  {
    if x != 0 {
      AndAbove(x / 2, k - 1);
    }
  }
}
