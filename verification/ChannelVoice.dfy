/** Channel voice packets (cmidi2.h:124-285) and the getters that read them back
    (cmidi2.h:512-679; sections 4.1, 4.2 and 4.8 of M2-104-UM). */
module ChannelVoice {
  import opened Bits
  import opened BigEndian

  // Constructors. Every parameter is masked as in the source.

  /** `cmidi2_ump_midi1_message`. */
  function Midi1Message(group: nat, code: byte, channel: nat, byte3: nat, byte4: nat): nat {
    2 * 0x1000_0000 + group % 16 * 0x100_0000 + ((code - code % 16) + channel % 16) * 0x1_0000
      + byte3 % 0x80 * 0x100 + byte4 % 0x80
  }

  /** `cmidi2_ump_midi1_pitch_bend_direct`. */
  function Midi1PitchBend(group: nat, channel: nat, data: nat): nat {
    Midi1Message(group, 0xE0, channel, data % 0x80, data / 0x80 % 0x80)
  }

  function Midi2Header(group: nat, code: byte, channel: nat, byte3: byte, byte4: byte): nat {
    var b3: nat := byte3;
    4 * 0x1000_0000 + group % 16 * 0x100_0000 + ((code - code % 16) + channel % 16) * 0x1_0000 + b3 * 0x100 + byte4
  }

  /** `cmidi2_ump_midi2_channel_message_8_8_16_16`, in 64-bit arithmetic. */
  function Midi2Message16(group: nat, code: byte, channel: nat, byte3: byte, byte4: byte,
                          short1: nat, short2: nat): nat {
    (Midi2Header(group, code, channel, byte3, byte4) * U32_MODULUS + short1 * 0x1_0000 + short2) % U64_MODULUS
  }

  /** `cmidi2_ump_midi2_channel_message_8_8_32`. */
  function Midi2Message32(group: nat, code: byte, channel: nat, byte3: byte, byte4: byte, rest: nat): nat {
    (Midi2Header(group, code, channel, byte3, byte4) * U32_MODULUS + rest) % U64_MODULUS
  }

  /** `cmidi2_ump_midi2_program`. */
  function Midi2Program(group: nat, channel: nat, options: nat, program: nat, bankMsb: byte, bankLsb: byte): nat {
    var msb: nat := bankMsb;
    Midi2Message32(group, 0xC0, channel, 0, options % 2, program % 0x80 * 0x100_0000 + msb * 0x100 + bankLsb)
  }

  /** `cmidi2_ump_jr_clock_direct`: the time is added to the word as it is. */
  function JrClock(group: nat, time: nat): nat {
    U32(group % 16 * 0x100_0000 + 0x10 * 0x1_0000 + time)
  }

  // Getters, on the packet's bytes.

  function MessageType(p: seq<byte>): nat
    requires |p| >= 4
  {
    p[0] / 16
  }

  function Group(p: seq<byte>): nat
    requires |p| >= 4
  {
    p[0] % 16
  }

  function StatusCode(p: seq<byte>): nat
    requires |p| >= 4
  {
    p[1] - p[1] % 16
  }

  function Channel(p: seq<byte>): nat
    requires |p| >= 4
  {
    p[1] % 16
  }

  function Field16(p: seq<byte>, at: nat): nat
    requires at + 2 <= |p|
  {
    var high: nat := p[at];
    high * 0x100 + p[at + 1]
  }

  /** `cmidi2_ump_get_32_to_64`. */
  function Field32(p: seq<byte>): nat
    requires |p| >= 8
  {
    U32(Field16(p, 4) * 0x1_0000 + Field16(p, 6))
  }

  function PitchBendData(p: seq<byte>): nat
    requires |p| >= 4
  {
    var high: nat := p[3];
    p[2] + high * 0x80
  }

  predicate Addressed(p: seq<byte>, messageType: nat, group: nat, code: byte, channel: nat)
    requires |p| >= 4
  {
    && MessageType(p) == messageType && Group(p) == group % 16
    && StatusCode(p) == code - code % 16 && Channel(p) == channel % 16
    && p[0] == messageType * 16 + group % 16 && p[1] == code / 16 * 16 + channel % 16
  }

  lemma StatusDigits(code: byte, channel: nat)
    ensures var s := (code - code % 16) + channel % 16;
      s < 256 && s - s % 16 == code - code % 16 && s % 16 == channel % 16
  {
  }

  /** Every field of a MIDI 1.0 packet reads back as it was masked, with no carry. */
  lemma {:induction false} Midi1Fields(group: nat, code: byte, channel: nat, byte3: nat, byte4: nat)
    ensures var p := Layout(4, Midi1Message(group, code, channel, byte3, byte4));
      Addressed(p, 2, group, code, channel) && p[2] == byte3 % 0x80 && p[3] == byte4 % 0x80
  {
    StatusDigits(code, channel);
    var b := [2 * 16 + group % 16, (code - code % 16) + channel % 16, byte3 % 0x80, byte4 % 0x80];
    ValueOfFour(b);
    LayoutOfValue(b);
    assert Value(b) == Midi1Message(group, code, channel, byte3, byte4);
  }

  /** A 14-bit pitch bend, low digit first, reads back exactly when it has 14 bits. */
  lemma {:induction false} Midi1PitchBendRoundTrip(group: nat, channel: nat, data: nat)
    requires data < 0x1_0000
    ensures PitchBendData(Layout(4, Midi1PitchBend(group, channel, data))) == data <==> data < 0x4000
    ensures var p := Layout(4, Midi1PitchBend(group, channel, data));
      Addressed(p, 2, group, 0xE0, channel) && p[2] == data % 0x80 && p[3] == data / 0x80 % 0x80
  {
    Midi1Fields(group, 0xE0, channel, data % 0x80, data / 0x80 % 0x80);
  }

  lemma HeaderValue(group: nat, code: byte, channel: nat, byte3: byte, byte4: byte)
    ensures var b := [4 * 16 + group % 16, (code - code % 16) + channel % 16, byte3, byte4];
      b[1] < 256 && Value(b) == Midi2Header(group, code, channel, byte3, byte4)
  {
    StatusDigits(code, channel);
    var b: seq<byte> := [4 * 16 + group % 16, (code - code % 16) + channel % 16, byte3, byte4];
    ValueOfFour(b);
  }

  lemma WordPair(a: nat, b: nat, v: nat)
    requires v == a * U32_MODULUS + b && v < U64_MODULUS
    ensures (a * U32_MODULUS + b) % U64_MODULUS == v
  {
  }

  lemma {:induction false} TwoWords(header: seq<byte>, rest: seq<byte>)
    requires |header| == 4 && |rest| == 4
    ensures Layout(8, (Value(header) * U32_MODULUS + Value(rest)) % U64_MODULUS) == header + rest
  {
    var b := header + rest;
    Pow256Values();
    ValueOfConcat(header, rest);
    ValueBound(b);
    LayoutOfValue(b);
    assert |b| == 8 && |rest| == 4;
    WordPair(Value(header), Value(rest), Value(b));
  }

  lemma Midi2Layout(group: nat, code: byte, channel: nat, byte3: byte, byte4: byte, rest: seq<byte>)
    requires |rest| == 4
    ensures (code - code % 16) + channel % 16 < 256
    ensures var b := [4 * 16 + group % 16, (code - code % 16) + channel % 16, byte3, byte4] + rest;
      Layout(8, (Midi2Header(group, code, channel, byte3, byte4) * U32_MODULUS + Value(rest)) % U64_MODULUS) == b
  {
    HeaderValue(group, code, channel, byte3, byte4);
    TwoWords([4 * 16 + group % 16, (code - code % 16) + channel % 16, byte3, byte4], rest);
  }

  /** Every field of a MIDI 2.0 packet with a 32-bit datum reads back, with no carry. */
  lemma Midi2Fields32(group: nat, code: byte, channel: nat, byte3: byte, byte4: byte, rest: nat)
    requires rest < U32_MODULUS
    ensures var p := Layout(8, Midi2Message32(group, code, channel, byte3, byte4, rest));
      Addressed(p, 4, group, code, channel) && p[2] == byte3 && p[3] == byte4 && Field32(p) == rest
      && p[4..8] == Layout(4, rest)
  {
    var r := Layout(4, rest);
    Pow256Values();
    ValueOfLayout(4, rest);
    StatusDigits(code, channel);
    Midi2Layout(group, code, channel, byte3, byte4, r);
    var p := Layout(8, Midi2Message32(group, code, channel, byte3, byte4, rest));
    PacketParts(p, [4 * 16 + group % 16, (code - code % 16) + channel % 16, byte3, byte4], r);
    AddressedBy(p, 4, group, code, channel);
    Field32Value(p);
  }

  lemma AddressedBy(p: seq<byte>, messageType: nat, group: nat, code: byte, channel: nat)
    requires |p| >= 4 && messageType < 16
    requires p[0] == messageType * 16 + group % 16 && p[1] == (code - code % 16) + channel % 16
    ensures Addressed(p, messageType, group, code, channel)
  {
    StatusDigits(code, channel);
  }

  lemma PacketParts(p: seq<byte>, header: seq<byte>, rest: seq<byte>)
    requires p == header + rest && |header| == |rest| == 4
    ensures p[0] == header[0] && p[1] == header[1] && p[2] == header[2] && p[3] == header[3] && p[4..8] == rest
  {
  }

  lemma Field32Value(p: seq<byte>)
    requires |p| == 8
    ensures Field32(p) == Value(p[4..8])
  {
    var r := p[4..8];
    ValueOfFour(r);
    assert p[4] == r[0] && p[5] == r[1] && p[6] == r[2] && p[7] == r[3];
  }

  lemma SplitShorts(a: nat, b: nat, c: nat, d: nat)
    requires a < 0x1_0000 && b < 0x1_0000 && c < 0x1_0000 && d < 0x1_0000
    requires U32(a * 0x1_0000 + b) == c * 0x1_0000 + d
    ensures a == c && b == d
  {
  }

  lemma SameMessage(group: nat, code: byte, channel: nat, byte3: byte, byte4: byte, short1: nat, short2: nat)
    ensures Midi2Message16(group, code, channel, byte3, byte4, short1, short2)
      == Midi2Message32(group, code, channel, byte3, byte4, short1 * 0x1_0000 + short2)
  {
  }

  /** The same with two 16-bit data, as notes have. */
  lemma Midi2Fields16(group: nat, code: byte, channel: nat, byte3: byte, byte4: byte, short1: nat, short2: nat)
    requires short1 < 0x1_0000 && short2 < 0x1_0000
    ensures var p := Layout(8, Midi2Message16(group, code, channel, byte3, byte4, short1, short2));
      Addressed(p, 4, group, code, channel) && p[2] == byte3 && p[3] == byte4
      && Field16(p, 4) == short1 && Field16(p, 6) == short2
  {
    var rest := short1 * 0x1_0000 + short2;
    Midi2Fields32(group, code, channel, byte3, byte4, rest);
    SameMessage(group, code, channel, byte3, byte4, short1, short2);
    var p := Layout(8, Midi2Message32(group, code, channel, byte3, byte4, rest));
    SplitShorts(Field16(p, 4), Field16(p, 6), short1, short2);
  }

  /** A program change reads back its option bit, program and bank. */
  lemma Midi2ProgramRoundTrip(group: nat, channel: nat, options: nat, program: nat, bankMsb: byte, bankLsb: byte)
    ensures var p := Layout(8, Midi2Program(group, channel, options, program, bankMsb, bankLsb));
      Addressed(p, 4, group, 0xC0, channel) && p[3] == options % 2
      && p[2] == 0 && p[4] == program % 0x80 && p[5] == 0 && p[6] == bankMsb && p[7] == bankLsb
  {
    var msb: nat := bankMsb;
    var rest := program % 0x80 * 0x100_0000 + msb * 0x100 + bankLsb;
    var bytes: seq<byte> := [program % 0x80, 0, bankMsb, bankLsb];
    ValueOfFour(bytes);
    LayoutOfValue(bytes);
    assert Value(bytes) == rest;
    Midi2Fields32(group, 0xC0, channel, 0, options % 2, rest);
    var p := Layout(8, Midi2Program(group, channel, options, program, bankMsb, bankLsb));
    assert p[4..8] == bytes;
    assert p[4] == p[4..8][0] && p[5] == p[4..8][1] && p[6] == p[4..8][2] && p[7] == p[4..8][3];
  }

  lemma JrClockValue(group: nat, time: nat)
    ensures Value(Layout(4, JrClock(group, time))) == (group % 16 * 0x100_0000 + 0x10_0000 + time) % 0x1_0000_0000
  {
    Pow256Values();
    ValueOfLayout(4, JrClock(group, time));
  }

  /** A jitter-reduction clock reads back with its status intact exactly when the time
      has 16 bits; a longer one spills into status and group. */
  lemma JrClockRoundTrip(group: nat, time: nat)
    requires time < U32_MODULUS
    ensures var p := Layout(4, JrClock(group, time));
      Addressed(p, 0, group, 0x10, 0) && Field16(p, 2) == time <==> time < 0x1_0000
    ensures Value(Layout(4, JrClock(group, time))) == (group % 16 * 0x100_0000 + 0x10_0000 + time) % 0x1_0000_0000
  {
    JrClockValue(group, time);
    if time < 0x1_0000 {
      ShortClock(group, time);
      AddressedBy(Layout(4, JrClock(group, time)), 0, group, 0x10, 0);
    }
  }

  lemma ShortClock(group: nat, time: nat)
    requires time < 0x1_0000
    ensures Layout(4, JrClock(group, time)) == [group % 16, 0x10, time / 0x100, time % 0x100]
  {
    var b: seq<byte> := [group % 16, 0x10, time / 0x100, time % 0x100];
    ValueOfFour(b);
    LayoutOfValue(b);
  }
}
