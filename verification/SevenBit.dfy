/** The delta-time encoder of AAPMidiProcessor (AAPMidiProcessor.cpp:309-319), as it
    is written, beside the low-digit-first 7-bit code it is meant to produce. */
module SevenBit {
  import opened Bits
  import opened Options

  /** The intended code: 7-bit digits, lowest first, all but the last with the top bit set. */
  function Intended(v: nat): (code: seq<byte>)
    ensures |code| >= 1
  {
    if v < 0x80 then [v] else [0x80 + v % 0x80] + Intended(v / 0x80)
  }

  /** C's `%`: the result has the sign of the dividend. */
  function CRemainder(a: int, b: int): int
    requires b > 0
  {
    if a >= 0 then a % b else -((-a) % b)
  }

  /** C's `/`, which rounds towards zero. */
  function CQuotient(a: int, b: int): int
    requires b > 0
  {
    if a >= 0 then a / b else -((-a) / b)
  }

  /** An `int` stored in a byte. */
  function LowByte(x: int): byte {
    x % 0x100
  }

  /** The written code: digits modulo 80, and the top bit kept instead of set; for a
      negative value the loop ends too, and no bit is cleared. */
  function Written(v: int): (code: seq<byte>)
    ensures |code| >= 1
    decreases if v < 0 then -v else v
  {
    var rest := CQuotient(v, 0x80);
    if rest == 0 then [LowByte(CRemainder(v, 80))]
    else [if rest > 0 then 0 else LowByte(CRemainder(v, 80))] + Written(rest)
  }

  /** The value at the head of `b` and the number of bytes it takes. */
  function Decode(b: seq<byte>): Option<(nat, nat)> {
    if b == [] then None
    else if b[0] < 0x80 then Some((b[0], 1))
    else
      match Decode(b[1..])
      case None => None
      case Some((v, n)) => Some((b[0] - 0x80 + 0x80 * v, n + 1))
  }

  /** `b` with `code` written over it from `start` on. */
  function Overwritten(b: seq<byte>, start: nat, code: seq<byte>): seq<byte>
    requires start + |code| <= |b|
  {
    b[..start] + code + b[start + |code|..]
  }

  lemma OverwrittenNext(b: seq<byte>, start: nat, code: seq<byte>, pos: nat)
    requires start + |code| <= |b| && pos < |code|
    ensures Overwritten(b, start, code[..pos])[start + pos := code[pos]] == Overwritten(b, start, code[..pos + 1])
  {
  }

  /** The first byte of a code, and the code of what is left. */
  lemma CodeSplits(v: int, whole: seq<byte>, pos: nat)
    requires pos < |whole| && Written(v) == whole[pos..]
    ensures var rest := CQuotient(v, 0x80);
      && whole[pos] == (if rest > 0 then 0 else LowByte(CRemainder(v, 80)))
      && if rest == 0 then |whole| == pos + 1 else pos + 1 < |whole| && Written(rest) == whole[pos + 1..]
  {
    assert Written(v)[0] == whole[pos];
    assert Written(v)[1..] == whole[pos + 1..];
  }

  /** `set7BitEncodedLength`, writing at `start` of the buffer. */
  method Set7BitEncodedLength(buffer: array<byte>, start: nat, value: int) returns (pos: nat)
    requires start + |Written(value)| <= buffer.Length
    modifies buffer
    ensures pos == |Written(value)|
    ensures buffer[..] == old(buffer[..start]) + Written(value) + old(buffer[start + pos..])
  {
    pos := 0;
    var v := value;
    ghost var was, whole := buffer[..], Written(value);
    var going := true;
    while going
      invariant going ==> pos < |whole| && Written(v) == whole[pos..]
      invariant !going ==> pos == |whole|
      invariant pos <= |whole|
      invariant buffer[..] == Overwritten(was, start, whole[..pos])
      decreases going, |whole| - pos
    {
      OverwrittenNext(was, start, whole, pos);
      CodeSplits(v, whole, pos);
      buffer[start + pos] := LowByte(CRemainder(v, 80));
      v := CQuotient(v, 0x80);
      if v > 0 {
        TopBitOfSmall(buffer[start + pos]);
        buffer[start + pos] := BitAnd(buffer[start + pos], 0x80);
      }
      pos := pos + 1;
      going := v != 0;
    }
    assert whole[..pos] == whole;
  }

  lemma TopBitOfSmall(x: nat)
    requires x < 0x80
    ensures BitAnd(x, 0x80) == 0
  {
    assert Pow2(7) == 0x80;
    AndAbove(x, 7);
  }

  /** The intended code is read back exactly, whatever bytes follow it. */
  lemma {:induction false} IntendedRoundTrip(v: nat, tail: seq<byte>)
    ensures Decode(Intended(v) + tail) == Some((v, |Intended(v)|))
  {
    if v >= 0x80 {
      IntendedRoundTrip(v / 0x80, tail);
      assert (Intended(v) + tail)[1..] == Intended(v / 0x80) + tail;
    }
  }

  function Pow128(k: nat): nat {
    if k == 0 then 1 else 0x80 * Pow128(k - 1)
  }

  /** The intended code is as short as any 7-bit code can be. */
  lemma {:induction false} IntendedIsShortest(v: nat, k: nat)
    ensures k >= 1 ==> (v < Pow128(k) <==> |Intended(v)| <= k)
    decreases v
  {
    if k >= 1 {
      if v < 0x80 {
        Pow128Positive(k - 1);
      } else if k >= 2 {
        IntendedIsShortest(v / 0x80, k - 1);
      }
    }
  }

  lemma {:induction false} Pow128Positive(k: nat)
    ensures Pow128(k) >= 1
  {
    if k > 0 {
      Pow128Positive(k - 1);
    }
  }

  function Magnitude(v: int): nat {
    if v < 0 then -v else v
  }

  /** The written code has as many bytes as the intended one would for the magnitude. */
  lemma {:induction false} CodeLength(v: int, k: nat)
    requires k >= 1
    ensures |Written(v)| <= k <==> Magnitude(v) < Pow128(k)
    decreases k
  {
    Pow128Positive(k - 1);
    if CQuotient(v, 0x80) != 0 && k >= 2 {
      CodeLength(CQuotient(v, 0x80), k - 1);
    }
  }

  lemma DivideTwice(a: nat, m: nat)
    requires m >= 1
    ensures a / 0x80 / m == a / (0x80 * m)
  {
    var b, low := a / 0x80, a % 0x80;
    var q, high := b / m, b % m;
    assert b == q * m + high;
    assert 0x80 * (q * m) == q * (0x80 * m);
    QuotientOf(q, 0x80 * high + low, 0x80 * m);
  }

  /** Byte `i` of the written code: 0, except for the last byte and for negative values; and
      there the value divided by 128 `i` times, rounded towards zero, modulo 80. */
  lemma {:induction false} WrittenAt(v: int, i: nat)
    requires i < |Written(v)|
    ensures Pow128(i) >= 1
    ensures var digit := Magnitude(v) / Pow128(i) % 80;
      Written(v)[i] == if v < 0 then (256 - digit) % 256 else if i + 1 < |Written(v)| then 0 else digit
    decreases i
  {
    Pow128Positive(i);
    if i == 0 {
      FirstByte(v);
    } else {
      Pow128Positive(i - 1);
      LaterBytes(v, i);
      WrittenAt(CQuotient(v, 0x80), i - 1);
      DivideTwice(Magnitude(v), Pow128(i - 1));
    }
  }

  function ByteAt(v: int, digit: nat, i: nat, length: nat): byte
    requires digit < 80
  {
    if v < 0 then (256 - digit) % 256 else if i + 1 < length then 0 else digit
  }

  lemma FirstByte(v: int)
    ensures Written(v)[0] == ByteAt(v, Magnitude(v) % 80, 0, |Written(v)|)
  {
    LastByte(v);
    assert CQuotient(v, 0x80) > 0 ==> v > 0;
  }

  lemma LastByte(v: int)
    ensures LowByte(CRemainder(v, 80)) == if v < 0 then (256 - Magnitude(v) % 80) % 256 else v % 80
  {
    if v < 0 {
      Negated(Magnitude(v) % 80);
    }
  }

  lemma Negated(digit: int)
    requires 0 <= digit < 80
    ensures LowByte(-digit) == (256 - digit) % 256
  {
  }

  lemma LaterBytes(v: int, i: nat)
    requires 0 < i < |Written(v)|
    ensures var rest := CQuotient(v, 0x80);
      && (rest < 0 <==> v < 0) && Magnitude(rest) == Magnitude(v) / 0x80
      && |Written(v)| == |Written(rest)| + 1 && Written(v)[i] == Written(rest)[i - 1]
  {
  }

  /** `v` is what a reader finds at the head of `b`. */
  predicate ReadsAs(b: seq<byte>, v: int, n: nat) {
    Decode(b).Some? && Decode(b).value == (v, n)
  }

  /** What the encoder really writes is read back as the value exactly for 0..79, and
      there it is the intended code. */
  lemma WrittenRoundTripsBelow80(v: int, tail: seq<byte>)
    ensures ReadsAs(Written(v) + tail, v, |Written(v)|) <==> 0 <= v < 80
    ensures v >= 0 ==> (Written(v) == Intended(v) <==> v < 80)
  {
    assert (Written(v) + tail)[0] == Written(v)[0];
    if v >= 0 {
      assert Decode(Written(v) + tail) == Some((Written(v)[0], 1));
    }
  }
}
