/** Packet words and their bytes, most significant first (cmidi2.h:301-315). */
module BigEndian {
  import opened Bits

  /** The number whose base-256 digits are `b`, most significant first. */
  function Value(b: seq<byte>): nat {
    if b == [] then 0 else 0x100 * Value(b[..|b| - 1]) + b[|b| - 1]
  }

  /** `v` laid out in `n` bytes, most significant first. */
  function Layout(n: nat, v: nat): (b: seq<byte>)
    ensures |b| == n
  {
    if n == 0 then [] else Layout(n - 1, v / 0x100) + [v % 0x100]
  }

  /** Laying out the value of some bytes gives the bytes back. */
  lemma {:induction false} LayoutOfValue(b: seq<byte>)
    ensures Layout(|b|, Value(b)) == b
  {
    if b != [] {
      LayoutOfValue(b[..|b| - 1]);
      assert b == b[..|b| - 1] + [b[|b| - 1]];
    }
  }

  function Pow256(k: nat): nat {
    if k == 0 then 1 else 0x100 * Pow256(k - 1)
  }

  lemma {:induction false} ValueBound(b: seq<byte>)
    ensures Value(b) < Pow256(|b|)
  {
    if b != [] {
      ValueBound(b[..|b| - 1]);
    }
  }

  lemma {:induction false} ByteShift(k: nat)
    ensures Pow2(8 * k) == Pow256(k)
  {
    if k > 0 {
      ByteShift(k - 1);
      var e := 8 * k;
      assert Pow2(e) == 2 * Pow2(e - 1) && Pow2(e - 1) == 2 * Pow2(e - 2);
      assert Pow2(e - 2) == 2 * Pow2(e - 3) && Pow2(e - 3) == 2 * Pow2(e - 4);
      assert Pow2(e - 4) == 2 * Pow2(e - 5) && Pow2(e - 5) == 2 * Pow2(e - 6);
      assert Pow2(e - 6) == 2 * Pow2(e - 7) && Pow2(e - 7) == 2 * Pow2(e - 8);
    }
  }

  lemma ValueStep(b: seq<byte>, i: nat)
    requires i < |b|
    ensures Value(b[..i + 1]) == 0x100 * Value(b[..i]) + b[i]
  {
    assert b[..i + 1][..i] == b[..i];
  }

  /** The value of two parts side by side. */
  lemma {:induction false} ValueOfConcat(a: seq<byte>, b: seq<byte>)
    ensures Value(a + b) == Value(a) * Pow256(|b|) + Value(b)
  {
    if b == [] {
      assert a + b == a;
    } else {
      var front, last := b[..|b| - 1], b[|b| - 1];
      ValueOfConcat(a, front);
      assert (a + b)[..|a + b| - 1] == a + front;
      assert Value(a + b) == 0x100 * (Value(a) * Pow256(|front|) + Value(front)) + last;
      Regroup(Value(a), Pow256(|front|), Value(front), last);
    }
  }

  lemma Regroup(a: nat, p: nat, f: nat, d: nat)
    ensures 0x100 * (a * p + f) + d == a * (0x100 * p) + (0x100 * f + d)
  {
  }

  /** Adding the next byte at its own shift keeps the sum the value of the bytes so
      far, moved up past the bytes still to come. */
  lemma NextByte(b: seq<byte>, i: nat, rest: nat)
    requires i < |b|
    ensures Value(b[..i]) * Pow256(rest + 1) + b[i] * Pow256(rest) == Value(b[..i + 1]) * Pow256(rest)
    ensures Value(b[..i]) * Pow256(rest + 1) <= Value(b[..i + 1]) * Pow256(rest)
  {
    ValueStep(b, i);
    Distribute(Value(b[..i]), b[i], Pow256(rest));
  }

  lemma Distribute(v: nat, d: nat, p: nat)
    ensures v * (0x100 * p) + d * p == (0x100 * v + d) * p
    ensures d * p >= 0
  {
  }

  lemma PartialBelow(b: seq<byte>, i: nat)
    requires i <= |b|
    ensures Value(b[..i]) * Pow256(|b| - i) <= Value(b)
    decreases |b| - i
  {
    if i < |b| {
      NextByte(b, i, |b| - i - 1);
      PartialBelow(b, i + 1);
    } else {
      assert b[..i] == b;
    }
  }

  const U64_MODULUS: nat := 0x1_0000_0000_0000_0000

  lemma Pow256Values()
    ensures Pow256(4) == U32_MODULUS && Pow256(8) == U64_MODULUS
  {
    assert Pow256(3) == 0x100_0000;
    assert Pow256(6) == 0x1_0000_0000_0000;
  }

  /** What either loop has summed up after `i` bytes. */
  function Partial(b: seq<byte>, i: nat): nat
    requires i <= |b|
  {
    Value(b[..i]) * Pow256(|b| - i)
  }

  lemma {:induction false} RoundOfSum(b: seq<byte>, i: nat)
    requires i < |b|
    ensures Partial(b, i) + b[i] * Pow2(8 * (|b| - 1 - i)) == Partial(b, i + 1) <= Value(b)
  {
    ByteShift(|b| - 1 - i);
    NextByte(b, i, |b| - 1 - i);
    PartialBelow(b, i + 1);
  }

  lemma WholeSum(b: seq<byte>)
    ensures Partial(b, 0) == 0 && Partial(b, |b|) == Value(b)
  {
    assert b[..|b|] == b;
  }

  /** `read_uint32_bytes`. The source shifts a 32-bit value by (7 - i) * 8, which C
      leaves undefined. This is the intended reading, a shift by (3 - i) * 8, which is the
      same count modulo the word size. */
  method ReadUint32Bytes(sequence: seq<byte>) returns (ret: nat)
    requires |sequence| >= 4
    ensures ret == Value(sequence[..4])
    ensures var b0: nat, b1: nat, b2: nat := sequence[0], sequence[1], sequence[2];
      ret == b0 * 0x100_0000 + b1 * 0x1_0000 + b2 * 0x100 + sequence[3]
  {
    ValueOfFour(sequence[..4]);
    ret := 0;
    var b := sequence[..4];
    Pow256Values();
    ValueBound(b);
    WholeSum(b);
    for i := 0 to 4
      invariant ret == Partial(b, i)
    {
      RoundOfSum(b, i);
      assert b[i] == sequence[i];
      var shift := (7 - i) * 8 % 32;
      assert shift == 8 * (3 - i);
      ret := U32(ret + sequence[i] * Pow2(shift));
    }
  }

  /** `read_uint64_bytes`. */
  method ReadUint64Bytes(sequence: seq<byte>) returns (ret: nat)
    requires |sequence| >= 8
    ensures ret == Value(sequence[..8])
    ensures var b0: nat, b1: nat, b2: nat, b3: nat := sequence[0], sequence[1], sequence[2], sequence[3];
      var b4: nat, b5: nat, b6: nat := sequence[4], sequence[5], sequence[6];
      ret == b0 * 0x100_0000_0000_0000 + b1 * 0x1_0000_0000_0000 + b2 * 0x100_0000_0000
        + b3 * 0x1_0000_0000 + b4 * 0x100_0000 + b5 * 0x1_0000 + b6 * 0x100 + sequence[7]
  {
    ValueOfEight(sequence[..8]);
    ret := 0;
    var b := sequence[..8];
    Pow256Values();
    ValueBound(b);
    WholeSum(b);
    for i := 0 to 8
      invariant ret == Partial(b, i)
    {
      RoundOfSum(b, i);
      assert b[i] == sequence[i];
      ret := (ret + sequence[i] * Pow2((7 - i) * 8)) % U64_MODULUS;
    }
  }

  /** The two words of a sixteen-byte packet, as `read_uint64_bytes` takes them from
      its first and its second half. */
  method ReadPacketWords(dst8: seq<byte>) returns (result1: nat, result2: nat)
    requires |dst8| == 16
    ensures Layout(8, result1) + Layout(8, result2) == dst8
  {
    result1 := ReadUint64Bytes(dst8);
    result2 := ReadUint64Bytes(dst8[8..]);
    var first, second := dst8[..8], dst8[8..];
    assert second[..8] == second;
    LayoutOfValue(first);
    LayoutOfValue(second);
    assert dst8 == first + second;
  }

  lemma ValueOfEight(b: seq<byte>)
    requires |b| == 8
    ensures var b0: nat, b1: nat, b2: nat, b3: nat := b[0], b[1], b[2], b[3];
      var b4: nat, b5: nat, b6: nat := b[4], b[5], b[6];
      Value(b) == b0 * 0x100_0000_0000_0000 + b1 * 0x1_0000_0000_0000 + b2 * 0x100_0000_0000
        + b3 * U32_MODULUS + b4 * 0x100_0000 + b5 * 0x1_0000 + b6 * 0x100 + b[7]
    ensures Value(b) < U64_MODULUS
  {
    assert b[..0] == [] && b[..8] == b;
    ValueStep(b, 0);
    ValueStep(b, 1);
    ValueStep(b, 2);
    ValueStep(b, 3);
    ValueStep(b, 4);
    ValueStep(b, 5);
    ValueStep(b, 6);
    ValueStep(b, 7);
  }

  lemma ValueOfFour(b: seq<byte>)
    requires |b| == 4
    ensures var b0: nat, b1: nat, b2: nat := b[0], b[1], b[2];
      Value(b) == b0 * 0x100_0000 + b1 * 0x1_0000 + b2 * 0x100 + b[3]
  {
    assert b[..0] == [] && b[..4] == b;
    ValueStep(b, 0);
    ValueStep(b, 1);
    ValueStep(b, 2);
    ValueStep(b, 3);
  }

  lemma {:induction false} ValueOfLayout(n: nat, v: nat)
    requires v < Pow256(n)
    ensures Value(Layout(n, v)) == v
  {
    if n > 0 {
      ValueOfLayout(n - 1, v / 0x100);
      assert Layout(n, v)[..n - 1] == Layout(n - 1, v / 0x100);
    }
  }
}
