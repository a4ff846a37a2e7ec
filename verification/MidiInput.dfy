/** The MIDI hand-off of AAPMidiProcessor: `processMidiInput` stores one message in
    the instrument's MIDI input port, the plugin's `process` reads it, and
    `callPluginProcess` clears the port (AAPMidiProcessor.cpp:265-277, 302-396). */
module MidiInput {
  import opened Bits
  import opened Options
  import opened SevenBit

  /** `CMIDI2_PROTOCOL_TYPE_MIDI2` (cmidi2.h:48); any other value means MIDI 1.0. */
  const MIDI2: int := 2

  const DELTA_TIME_SPEC: nat := 192

  /** A message as it is handed over: raw UMP bytes, or MIDI 1.0 bytes with a delta time. */
  datatype Message =
    | Ump(bytes: seq<byte>)
    | Midi1(ticks: nat, bytes: seq<byte>)

  // Timing (AAPMidiProcessor.cpp:302-307, 357-366), over exact rationals.

  function NanosecondsPerCycle(frameSize: nat, sampleRate: nat): nat
    requires sampleRate > 0
  {
    frameSize * 1_000_000_000 / sampleRate
  }

  /** `getTicksFromNanoseconds(192, value)` at its 120 beats per minute. */
  function Ticks(value: nat): nat {
    96 * value / 1_000_000_000
  }

  /** At 120 beats of 192 ticks a minute, a tick lasts two thousand million 192nds of a
      nanosecond; what is left of a tick is dropped. */
  lemma TicksElapsed(value: nat)
    ensures Ticks(value) * 2_000_000_000 <= 192 * value < (Ticks(value) + 1) * 2_000_000_000
  {
  }

  /** A cycle is the whole nanoseconds that `frameSize` samples last. */
  lemma CycleLasts(frameSize: nat, sampleRate: nat)
    requires sampleRate > 0
    ensures var cycle := NanosecondsPerCycle(frameSize, sampleRate);
      cycle * sampleRate <= frameSize * 1_000_000_000 < (cycle + 1) * sampleRate
  {
    var a := frameSize * 1_000_000_000;
    assert a == a / sampleRate * sampleRate + a % sampleRate;
    assert (a / sampleRate + 1) * sampleRate == a / sampleRate * sampleRate + sampleRate;
  }

  /** A time reduced to one cycle. */
  function ReducedTimestamp(timestamp: int, elapsed: int, cycle: nat): int
    requires cycle > 0
  {
    CRemainder(timestamp + elapsed, cycle)
  }

  /** Once a cycle has been timed, ticks never exceed the ticks of one cycle. */
  lemma TicksWithinCycle(timestamp: int, elapsed: int, frameSize: nat, sampleRate: nat)
    requires sampleRate > 0 && NanosecondsPerCycle(frameSize, sampleRate) > 0
    requires timestamp + elapsed >= 0
    ensures 0 <= ReducedTimestamp(timestamp, elapsed, NanosecondsPerCycle(frameSize, sampleRate))
    ensures Ticks(ReducedTimestamp(timestamp, elapsed, NanosecondsPerCycle(frameSize, sampleRate)))
      <= 96 * frameSize / sampleRate
  {
    var cycle := NanosecondsPerCycle(frameSize, sampleRate);
    var value := ReducedTimestamp(timestamp, elapsed, cycle);
    var n := Ticks(value);
    assert n * 1_000_000_000 <= 96 * value < 96 * cycle;
    DivisionBelow(frameSize * 1_000_000_000, sampleRate);
    assert cycle * sampleRate <= frameSize * 1_000_000_000;
    MulMonotone(n * 1_000_000_000, 96 * cycle, sampleRate);
    assert (n * 1_000_000_000) * sampleRate == (n * sampleRate) * 1_000_000_000;
    assert (96 * cycle) * sampleRate == 96 * (cycle * sampleRate);
    assert n * sampleRate <= 96 * frameSize;
    AtMostQuotient(n, 96 * frameSize, sampleRate);
  }

  lemma DivisionBelow(a: nat, b: nat)
    requires b > 0
    ensures (a / b) * b <= a
  {
  }

  lemma AtMostQuotient(n: nat, a: nat, b: nat)
    requires b > 0 && n * b <= a
    ensures n <= a / b
  {
    if n > a / b {
      MulMonotone(a / b + 1, n, b);
    }
  }

  /** Every time within a cycle gives ticks the written encoder can carry exactly when
      the cycle is at most 833333334 ns: five sixths of a second. */
  lemma CarriedTicks(cycle: nat)
    requires cycle > 0
    ensures (forall time: nat :: Ticks(time % cycle) < 80) <==> cycle <= 833_333_334
  {
    if cycle <= 833_333_334 {
      forall time: nat
        ensures Ticks(time % cycle) < 80
      {
        assert time % cycle <= 833_333_333;
      }
    } else {
      var late: nat := cycle - 1;
      ModOf(0, late, cycle);
      assert Ticks(late % cycle) >= 80;
    }
  }

  // The memory of the port.

  /** A 32-bit integer as a little-endian host stores it. */
  function Int32Bytes(v: nat): (b: seq<byte>)
    requires v < 0x8000_0000
    ensures |b| == 4
  {
    [v % 0x100, v / 0x100 % 0x100, v / 0x100 / 0x100 % 0x100, v / 0x100 / 0x100 / 0x100]
  }

  function Int32At(b: seq<byte>, index: nat): nat
    requires 4 * index + 4 <= |b|
  {
    var b0: nat, b1: nat, b2: nat, b3: nat :=
      b[4 * index], b[4 * index + 1], b[4 * index + 2], b[4 * index + 3];
    b0 + 0x100 * b1 + 0x1_0000 * b2 + 0x100_0000 * b3
  }

  /** The bytes the call touches in the port buffer. */
  function Extent(m: Message): nat {
    match m
    case Ump(bytes) => 32 + |bytes|
    case Midi1(ticks, bytes) => 8 + |Written(ticks)| + |bytes|
  }

  predicate Fits(m: Message, size: nat) {
    Extent(m) <= size && Extent(m) < 0x8000_0000
  }

  /** The port buffer after a message has been stored over what it held. */
  function Stored(b: seq<byte>, m: Message): (b': seq<byte>)
    requires Fits(m, |b|)
    ensures |b'| == |b|
  {
    match m
    case Ump(bytes) =>
      Int32Bytes(|bytes|) + Int32Bytes(0) + Int32Bytes(2) + Int32Bytes(0)
        + b[16..32] + bytes + b[32 + |bytes|..]
    case Midi1(ticks, bytes) =>
      var code := Written(ticks);
      Int32Bytes(DELTA_TIME_SPEC) + Int32Bytes(|bytes| + |code|)
        + code + bytes + b[8 + |code| + |bytes|..]
  }

  /** What a plugin that follows the format reads from a port in UMP format. */
  function ReadUmp(b: seq<byte>): Option<Message>
    requires |b| >= 32
  {
    var length := Int32At(b, 0);
    if length == 0 || Int32At(b, 2) != MIDI2 || 32 + length > |b| then None else Some(Ump(b[32..32 + length]))
  }

  /** What a plugin that follows the format reads from a port in MIDI 1.0 format. */
  function ReadMidi1(b: seq<byte>): Option<Message>
    requires |b| >= 32
  {
    var length := Int32At(b, 1);
    if length == 0 || Int32At(b, 0) != DELTA_TIME_SPEC || 8 + length > |b| then None
    else
      match Decode(b[8..8 + length])
      case None => None
      case Some((ticks, n)) => if n <= length then Some(Midi1(ticks, b[8 + n..8 + length])) else None
  }

  function Read(protocol: int, b: seq<byte>): Option<Message>
    requires |b| >= 32
  {
    if protocol == MIDI2 then ReadUmp(b) else ReadMidi1(b)
  }

  predicate InFormat(protocol: int, m: Message) {
    m.Ump? <==> protocol == MIDI2
  }

  /** The messages the port format can carry: a UMP message must not be empty, since a
      zero length means none, and ticks must be what the written encoder gets right. */
  predicate Carried(m: Message) {
    match m
    case Ump(bytes) => bytes != []
    case Midi1(ticks, _) => ticks < 80
  }

  /** What storing a UMP message over `before` leaves in the port, byte by byte: the length,
      lowest byte first, the number 2 for the protocol, reserved zeros, and the message
      behind 32 bytes; all the rest is as it was. */
  predicate HoldsUmp(before: seq<byte>, after: seq<byte>, message: seq<byte>) {
    && |after| == |before| >= 32 + |message|
    && HoldsLength(after, 0, |message|)
    && after[4..16] == [0, 0, 0, 0, 2, 0, 0, 0, 0, 0, 0, 0]
    && after[16..32] == before[16..32]
    && after[32..32 + |message|] == message
    && after[32 + |message|..] == before[32 + |message|..]
  }

  /** And for a MIDI 1.0 message: the number 192, the length of what follows, the delta time
      as its encoder writes it, and the message. */
  predicate HoldsMidi1(before: seq<byte>, after: seq<byte>, ticks: nat, message: seq<byte>) {
    var n := |Written(ticks)|;
    && |after| == |before| >= 8 + n + |message|
    && after[..4] == [192, 0, 0, 0]
    && HoldsLength(after, 4, n + |message|)
    && after[8..8 + n] == Written(ticks)
    && after[8 + n..8 + n + |message|] == message
    && after[8 + n + |message|..] == before[8 + n + |message|..]
  }

  predicate HoldsLength(b: seq<byte>, at: nat, length: nat) {
    at + 4 <= |b| &&
    var b0: nat, b1: nat, b2: nat, b3: nat := b[at], b[at + 1], b[at + 2], b[at + 3];
    length == b0 + 0x100 * b1 + 0x1_0000 * b2 + 0x100_0000 * b3
  }

  predicate Holds(before: seq<byte>, after: seq<byte>, m: Message) {
    match m
    case Ump(bytes) => HoldsUmp(before, after, bytes)
    case Midi1(ticks, bytes) => HoldsMidi1(before, after, ticks, bytes)
  }

  lemma StoredHolds(b: seq<byte>, m: Message)
    requires Fits(m, |b|)
    ensures Holds(b, Stored(b, m), m)
  {
    match m
    case Ump(bytes) => StoredUmpHolds(b, bytes);
    case Midi1(ticks, bytes) => StoredMidi1Holds(b, ticks, bytes);
  }

  lemma StoredUmpHolds(b: seq<byte>, bytes: seq<byte>)
    requires Fits(Ump(bytes), |b|)
    ensures HoldsUmp(b, Stored(b, Ump(bytes)), bytes)
  {
    var words: seq<byte> := [0, 0, 0, 0, 2, 0, 0, 0, 0, 0, 0, 0];
    assert words == Int32Bytes(0) + Int32Bytes(2) + Int32Bytes(0);
    FiveParts(Int32Bytes(|bytes|), words, b[16..32], bytes, b[32 + |bytes|..]);
    assert Stored(b, Ump(bytes)) == Int32Bytes(|bytes|) + words + b[16..32] + bytes + b[32 + |bytes|..];
    LengthHeld(Stored(b, Ump(bytes)), 0, |bytes|);
  }

  lemma StoredMidi1Holds(b: seq<byte>, ticks: nat, bytes: seq<byte>)
    requires Fits(Midi1(ticks, bytes), |b|)
    ensures HoldsMidi1(b, Stored(b, Midi1(ticks, bytes)), ticks, bytes)
  {
    var code := Written(ticks);
    FiveParts(Int32Bytes(DELTA_TIME_SPEC), Int32Bytes(|bytes| + |code|), code, bytes, b[8 + |code| + |bytes|..]);
    LengthHeld(Stored(b, Midi1(ticks, bytes)), 4, |bytes| + |code|);
  }

  lemma FiveParts(a: seq<byte>, b: seq<byte>, c: seq<byte>, d: seq<byte>, e: seq<byte>)
    ensures var whole := a + b + c + d + e;
      && whole[..|a|] == a && whole[|a|..|a| + |b|] == b && whole[|a| + |b|..|a| + |b| + |c|] == c
      && whole[|a| + |b| + |c|..|a| + |b| + |c| + |d|] == d && whole[|a| + |b| + |c| + |d|..] == e
  {
  }

  lemma LengthHeld(b: seq<byte>, at: nat, v: nat)
    requires v < 0x8000_0000 && at + 4 <= |b| && b[at..at + 4] == Int32Bytes(v)
    ensures HoldsLength(b, at, v)
  {
    var four := b[at..at + 4];
    assert four[0] == b[at] && four[1] == b[at + 1] && four[2] == b[at + 2] && four[3] == b[at + 3];
  }

  lemma Int32RoundTrip(b: seq<byte>, index: nat, v: nat)
    requires v < 0x8000_0000 && 4 * index + 4 <= |b| && b[4 * index..4 * index + 4] == Int32Bytes(v)
    ensures Int32At(b, index) == v
  {
    var four := b[4 * index..4 * index + 4];
    assert four[0] == b[4 * index] && four[1] == b[4 * index + 1];
    assert four[2] == b[4 * index + 2] && four[3] == b[4 * index + 3];
  }

  lemma StoredUmpRead(b: seq<byte>, m: Message)
    requires m.Ump? && Fits(m, |b|) && |b| >= 32
    ensures ReadUmp(Stored(b, m)) == if m.bytes == [] then None else Some(m)
  {
    var b' := Stored(b, m);
    assert b'[0..4] == Int32Bytes(|m.bytes|);
    Int32RoundTrip(b', 0, |m.bytes|);
    assert b'[8..12] == Int32Bytes(2);
    Int32RoundTrip(b', 2, 2);
    assert b'[32..32 + |m.bytes|] == m.bytes;
  }

  lemma StoredMidi1Read(b: seq<byte>, m: Message)
    requires m.Midi1? && Fits(m, |b|) && |b| >= 32
    ensures ReadMidi1(Stored(b, m)) == Some(m) <==> m.ticks < 80
  {
    var b' := Stored(b, m);
    var code := Written(m.ticks);
    var length := |m.bytes| + |code|;
    assert b'[4..8] == Int32Bytes(length);
    Int32RoundTrip(b', 1, length);
    assert b'[0..4] == Int32Bytes(DELTA_TIME_SPEC);
    Int32RoundTrip(b', 0, DELTA_TIME_SPEC);
    assert b'[8..8 + length] == code + m.bytes;
    WrittenRoundTripsBelow80(m.ticks, m.bytes);
    assert (code + m.bytes)[0] == code[0];
    assert b'[8 + |code|..8 + length] == m.bytes;
  }

  /** Storing and reading are inverse on exactly the messages the format carries,
      whatever the port held before. */
  lemma StoredRead(protocol: int, b: seq<byte>, m: Message)
    requires InFormat(protocol, m) && Fits(m, |b|) && |b| >= 32
    ensures Read(protocol, Stored(b, m)) == Some(m) <==> Carried(m)
  {
    if m.Ump? {
      StoredUmpRead(b, m);
    } else {
      StoredMidi1Read(b, m);
    }
  }

  function Zeros(n: nat): seq<byte> {
    seq(n, _ => 0)
  }

  lemma ZerosReadNone(protocol: int, n: nat)
    requires n >= 32
    ensures Read(protocol, Zeros(n)) == None
  {
  }

  // Whole runs of arrivals and plugin process calls.

  datatype Happening = Arrive(message: Message) | Process

  predicate RunFits(protocol: int, size: nat, run: seq<Happening>) {
    forall i :: 0 <= i < |run| && run[i].Arrive? ==>
      InFormat(protocol, run[i].message) && Fits(run[i].message, size)
  }

  /** The port after the run, starting from cleared memory. */
  function Port(protocol: int, size: nat, run: seq<Happening>): (b: seq<byte>)
    requires RunFits(protocol, size, run)
    ensures |b| == size
  {
    if run == [] then Zeros(size)
    else
      match run[|run| - 1]
      case Process => Zeros(size)
      case Arrive(m) => Stored(Port(protocol, size, run[..|run| - 1]), m)
  }

  /** What each process call of the run reads, in order. */
  function Seen(protocol: int, size: nat, run: seq<Happening>): seq<Option<Message>>
    requires RunFits(protocol, size, run) && size >= 32
  {
    if run == [] then []
    else
      var before := run[..|run| - 1];
      Seen(protocol, size, before) +
        if run[|run| - 1].Process? then [Read(protocol, Port(protocol, size, before))] else []
  }

  /** The last message since the last process call. */
  function Latest(run: seq<Happening>): Option<Message> {
    if run == [] || run[|run| - 1].Process? then None else Some(run[|run| - 1].message)
  }

  /** What each process call should read: the latest message before it, or none. */
  function Due(run: seq<Happening>): seq<Option<Message>> {
    if run == [] then []
    else
      var before := run[..|run| - 1];
      Due(before) + if run[|run| - 1].Process? then [Latest(before)] else []
  }

  lemma LatestRead(protocol: int, size: nat, run: seq<Happening>)
    requires RunFits(protocol, size, run) && size >= 32
    ensures Read(protocol, Port(protocol, size, run)) == Latest(run)
      <==> (Latest(run).Some? ==> Carried(Latest(run).value))
  {
    if Latest(run).Some? {
      var before := run[..|run| - 1];
      StoredRead(protocol, Port(protocol, size, before), run[|run| - 1].message);
    } else {
      ZerosReadNone(protocol, size);
    }
  }

  predicate DueCarried(run: seq<Happening>) {
    forall k :: 0 <= k < |Due(run)| && Due(run)[k].Some? ==> Carried(Due(run)[k].value)
  }

  /** Every process call sees the last message that arrived since the previous one, or
      none, once and only once, even over a longer stale message, exactly when each
      message that is due is one the format carries. */
  lemma {:induction false} HandOffDeliversLatest(protocol: int, size: nat, run: seq<Happening>)
    requires RunFits(protocol, size, run) && size >= 32
    ensures |Seen(protocol, size, run)| == |Due(run)|
    ensures Seen(protocol, size, run) == Due(run) <==> DueCarried(run)
  {
    if run != [] {
      var before, last := run[..|run| - 1], run[|run| - 1];
      assert RunFits(protocol, size, before) by {
        forall i | 0 <= i < |before| && before[i].Arrive?
          ensures InFormat(protocol, before[i].message) && Fits(before[i].message, size)
        {
          assert before[i] == run[i];
        }
      }
      HandOffDeliversLatest(protocol, size, before);
      var seen, due := Seen(protocol, size, before), Due(before);
      if last.Process? {
        LatestRead(protocol, size, before);
        var s, d := Read(protocol, Port(protocol, size, before)), Latest(before);
        assert seen + [s] == due + [d] <==> seen == due && s == d by {
          assert (seen + [s])[..|seen|] == seen && (due + [d])[..|due|] == due;
          assert (seen + [s])[|seen|] == s && (due + [d])[|due|] == d;
        }
        DueCarriedStep(run);
      } else {
        assert Due(run) == due && Seen(protocol, size, run) == seen;
      }
    }
  }

  lemma DueCarriedStep(run: seq<Happening>)
    requires run != [] && run[|run| - 1].Process?
    ensures var before := run[..|run| - 1];
      DueCarried(run) <==> DueCarried(before) && (Latest(before).Some? ==> Carried(Latest(before).value))
  {
    var before := run[..|run| - 1];
    assert Due(run) == Due(before) + [Latest(before)];
    forall k | 0 <= k < |Due(before)|
      ensures Due(run)[k] == Due(before)[k]
    {
    }
    assert Due(run)[|Due(before)|] == Latest(before);
  }

  /** `b` with `src` written over it from `offset` on. */
  function Splice(b: seq<byte>, offset: nat, src: seq<byte>): seq<byte>
    requires offset + |src| <= |b|
  {
    b[..offset] + src + b[offset + |src|..]
  }

  lemma SpliceFront(front: seq<byte>, mid: seq<byte>, back: seq<byte>, src: seq<byte>)
    requires |mid| == |src|
    ensures Splice(front + mid + back, |front|, src) == front + src + back
  {
  }

  /** `memcpy` and `memset` into a port. */
  method Put(port: array<byte>, offset: nat, src: seq<byte>)
    requires offset + |src| <= port.Length
    modifies port
    ensures port[..] == Splice(old(port[..]), offset, src)
  {
    forall i | 0 <= i < |src| {
      port[offset + i] := src[i];
    }
  }

  /** A `struct timespec`. */
  datatype Time = Time(sec: int, nsec: int)

  function NanosecondsBetween(from: Time, to: Time): int {
    (to.sec - from.sec) * 1_000_000_000 + to.nsec - from.nsec
  }

  lemma ElapsedTime(from: Time, to: Time)
    ensures (from.sec * 1_000_000_000 + from.nsec) + NanosecondsBetween(from, to) == to.sec * 1_000_000_000 + to.nsec
  {
  }

  /** A message that arrives before any process call was timed keeps its timestamp. After
      one, its time lies within one cycle, has the sign of the timestamp plus the time
      elapsed, and differs from it by whole cycles. */
  lemma AssignedTime(last: Time, timestamp: int, now: Time, cycle: nat) returns (cycles: int)
    requires cycle > 0
    ensures var time := TimeOf(last, timestamp, now, cycle);
      var total := timestamp + (now.sec * 1_000_000_000 + now.nsec) - (last.sec * 1_000_000_000 + last.nsec);
      if last.sec <= 0 then time == timestamp
      else total == time + cycles * cycle && 0 - cycle < time < cycle && (if total >= 0 then time >= 0 else time <= 0)
  {
    ElapsedTime(last, now);
    var total := timestamp + NanosecondsBetween(last, now);
    if total >= 0 {
      cycles := total / cycle;
    } else {
      cycles := -((-total) / cycle);
      NegatedQuotient(-total, cycle);
    }
  }

  lemma NegatedQuotient(a: nat, m: nat)
    requires m > 0
    ensures -(a as int) == -(a % m) + -(a / m) * m
  {
    assert a == a / m * m + a % m;
  }

  /** The time a message gets when the last process call was timed at `last`. */
  function TimeOf(last: Time, timestamp: int, now: Time, cycle: nat): int
    requires cycle > 0
  {
    if last.sec > 0 then ReducedTimestamp(timestamp, NanosecondsBetween(last, now), cycle) else timestamp
  }

  function MessageOf(protocol: int, time: int, bytes: seq<byte>): (m: Message)
    requires protocol != MIDI2 ==> time >= 0
    ensures InFormat(protocol, m) && m.bytes == bytes
  {
    if protocol == MIDI2 then Ump(bytes) else Midi1(Ticks(time), bytes)
  }

  /** The part of AAPMidiProcessor the MIDI hand-off works on. The two ports are those
      of the instrument instance, null where it has none. */
  class MidiProcessor {
    const frameSize: nat
    const sampleRate: nat
    const hasInstrument: bool
    const midi1InPort: array?<byte>
    const midi2InPort: array?<byte>
    var midiProtocol: int
    var lastProcessTime: Time

    ghost predicate Valid()
    {
      && sampleRate > 0 && NanosecondsPerCycle(frameSize, sampleRate) > 0 && frameSize >= 8
      && (midi1InPort != null ==> midi1InPort.Length == 4 * frameSize)
      && (midi2InPort != null ==> midi2InPort.Length == 4 * frameSize)
      && (midi1InPort != null && midi2InPort != null ==> midi1InPort != midi2InPort)
    }

    /** The port of fresh shared memory is zero. */
    constructor (frames: nat, rate: nat, instrument: bool, port1: array?<byte>, port2: array?<byte>, protocol: int)
      requires rate > 0 && frames >= 8 && NanosecondsPerCycle(frames, rate) > 0
      requires port1 != null ==> port1.Length == 4 * frames
      requires port2 != null ==> port2.Length == 4 * frames
      requires port1 != null && port2 != null ==> port1 != port2
      ensures Valid() && midiProtocol == protocol && lastProcessTime == Time(0, 0)
      ensures hasInstrument == instrument && midi1InPort == port1 && midi2InPort == port2
      ensures frameSize == frames && sampleRate == rate
    {
      frameSize, sampleRate := frames, rate;
      hasInstrument := instrument;
      midi1InPort, midi2InPort := port1, port2;
      midiProtocol := protocol;
      lastProcessTime := Time(0, 0);
    }

    /** `getAAPMidiInputBuffer`. */
    function InputPort(): (port: array?<byte>)
      reads this
      ensures port != null ==> hasInstrument && (port == midi1InPort || port == midi2InPort)
    {
      if !hasInstrument then null
      else if midiProtocol == MIDI2 && midi2InPort != null then midi2InPort
      else midi1InPort
    }

    /** An instrument without a MIDI 1.0 input port has one to store in exactly under
        MIDI 2.0, and then only if it has a MIDI 2.0 port. */
    lemma PortChosenExactly()
      requires hasInstrument
      ensures InputPort() == null <==> midi1InPort == null && (midiProtocol != MIDI2 || midi2InPort == null)
    {
    }

    /** The time `processMidiInput` assigns to a message. */
    function ActualTimestamp(timestamp: int, now: Time): int
      reads this
      requires Valid()
    {
      TimeOf(lastProcessTime, timestamp, now, NanosecondsPerCycle(frameSize, sampleRate))
    }

    /** The message a call hands over. */
    function Incoming(bytes: seq<byte>, timestamp: int, now: Time): Message
      reads this
      requires Valid() && (midiProtocol != MIDI2 ==> ActualTimestamp(timestamp, now) >= 0)
    {
      MessageOf(midiProtocol, ActualTimestamp(timestamp, now), bytes)
    }

    /** `processMidiInput`. The message must fit the port, and for MIDI 1.0 the time
        must not be negative, or the conversion to ticks is undefined in C. */
    method ProcessMidiInput(bytes: seq<byte>, offset: nat, length: nat, timestamp: int, now: Time)
      requires Valid() && offset + length <= |bytes|
      requires midiProtocol != MIDI2 ==>
        ActualTimestamp(timestamp, now) >= 0 && Ticks(ActualTimestamp(timestamp, now)) < 0x8000_0000
      requires hasInstrument ==> midi1InPort != null || (midiProtocol == 2 && midi2InPort != null)
      requires InputPort() != null ==>
        Fits(Incoming(bytes[offset..offset + length], timestamp, now), InputPort().Length)
      modifies InputPort()
      ensures InputPort() != null ==>
        InputPort()[..] == Stored(old(InputPort()[..]), Incoming(bytes[offset..offset + length], timestamp, now))
      ensures hasInstrument && midiProtocol == 2 ==>
        if midi2InPort != null
        then HoldsUmp(old(midi2InPort[..]), midi2InPort[..], bytes[offset..offset + length])
             && (midi1InPort != null ==> midi1InPort[..] == old(midi1InPort[..]))
        else midi1InPort != null && HoldsUmp(old(midi1InPort[..]), midi1InPort[..], bytes[offset..offset + length])
      ensures hasInstrument && midiProtocol != 2 ==>
        && midi1InPort != null
        && HoldsMidi1(old(midi1InPort[..]), midi1InPort[..], Ticks(ActualTimestamp(timestamp, now)),
                      bytes[offset..offset + length])
        && (midi2InPort != null ==> midi2InPort[..] == old(midi2InPort[..]))
      ensures !hasInstrument ==>
        && (midi1InPort != null ==> midi1InPort[..] == old(midi1InPort[..]))
        && (midi2InPort != null ==> midi2InPort[..] == old(midi2InPort[..]))
    {
      var actualTimestamp := AssignTime(timestamp, now);
      var port := InputPort();
      if midiProtocol == MIDI2 {
        if port != null {
          StoredHolds(port[..], Ump(bytes[offset..offset + length]));
          StoreUmp(port, bytes[offset..offset + length]);
        }
      } else {
        var ticks := Ticks(actualTimestamp);
        if port != null {
          StoredHolds(port[..], Midi1(ticks, bytes[offset..offset + length]));
          StoreMidi1(port, ticks, bytes[offset..offset + length]);
        }
      }
    }

    /** AAPMidiProcessor.cpp:357-366. */
    method AssignTime(timestamp: int, now: Time) returns (actualTimestamp: int)
      requires Valid()
      ensures actualTimestamp == ActualTimestamp(timestamp, now)
    {
      actualTimestamp := timestamp;
      if lastProcessTime.sec > 0 {
        var diff := NanosecondsBetween(lastProcessTime, now);
        actualTimestamp := CRemainder(timestamp + diff, NanosecondsPerCycle(frameSize, sampleRate));
      }
    }

    static method PutHeader(port: array<byte>, length: nat)
      requires length < 0x8000_0000 && port.Length >= 32
      modifies port
      ensures port[..] == Int32Bytes(length) + Int32Bytes(0) + Int32Bytes(2) + Int32Bytes(0) + old(port[16..])
    {
      ghost var before := port[..];
      Put(port, 0, Int32Bytes(length));
      Put(port, 4, Int32Bytes(0));
      Put(port, 8, Int32Bytes(2));
      Put(port, 12, Int32Bytes(0));
      FourWords(before, Int32Bytes(length), Int32Bytes(0), Int32Bytes(2), Int32Bytes(0));
    }

    static lemma FourWords(b: seq<byte>, w0: seq<byte>, w1: seq<byte>, w2: seq<byte>, w3: seq<byte>)
      requires |b| >= 16 && |w0| == |w1| == |w2| == |w3| == 4
      ensures Splice(Splice(Splice(Splice(b, 0, w0), 4, w1), 8, w2), 12, w3) == w0 + w1 + w2 + w3 + b[16..]
    {
      assert b[4..][4..] == b[8..] && b[8..][4..] == b[12..] && b[12..][4..] == b[16..];
      SpliceNext([], b, w0);
      assert [] + b == b && [] + w0 == w0;
      SpliceNext(w0, b[4..], w1);
      SpliceNext(w0 + w1, b[8..], w2);
      SpliceNext(w0 + w1 + w2, b[12..], w3);
    }

    static lemma SpliceNext(front: seq<byte>, back: seq<byte>, src: seq<byte>)
      requires |src| <= |back|
      ensures Splice(front + back, |front|, src) == front + src + back[|src|..]
    {
    }

    /** AAPMidiProcessor.cpp:375-380. */
    static method StoreUmp(port: array<byte>, message: seq<byte>)
      requires Fits(Ump(message), port.Length)
      modifies port
      ensures port[..] == Stored(old(port[..]), Ump(message))
    {
      ghost var before := port[..];
      PutHeader(port, |message|);
      ghost var header := Int32Bytes(|message|) + Int32Bytes(0) + Int32Bytes(2) + Int32Bytes(0);
      assert port[..] == header + before[16..];
      Put(port, 32, message);
      BehindHeader(header, before, message);
    }

    static lemma BehindHeader(header: seq<byte>, before: seq<byte>, message: seq<byte>)
      requires |header| == 16 && 32 + |message| <= |before|
      ensures Splice(header + before[16..], 32, message)
        == header + before[16..32] + message + before[32 + |message|..]
    {
      var n := 32 + |message|;
      assert before[16..] == before[16..32] + before[32..n] + before[n..];
      assert header + before[16..] == header + before[16..32] + before[32..n] + before[n..];
      SpliceFront(header + before[16..32], before[32..n], before[n..], message);
    }

    /** AAPMidiProcessor.cpp:387-393. */
    static method StoreMidi1(port: array<byte>, ticks: nat, message: seq<byte>)
      requires Fits(Midi1(ticks, message), port.Length)
      modifies port
      ensures port[..] == Stored(old(port[..]), Midi1(ticks, message))
    {
      ghost var before := port[..];
      Put(port, 0, Int32Bytes(DELTA_TIME_SPEC));
      var aapBufferOffset := 8;
      var lengthLength := Set7BitEncodedLength(port, aapBufferOffset, ticks);
      aapBufferOffset := aapBufferOffset + lengthLength;
      ghost var spliced := Splice(before, 0, Int32Bytes(DELTA_TIME_SPEC));
      assert port[..] == spliced[..8] + Written(ticks) + spliced[aapBufferOffset..];
      Put(port, 4, Int32Bytes(|message| + lengthLength));
      Put(port, aapBufferOffset, message);
      Midi1Splices(before, Int32Bytes(DELTA_TIME_SPEC), Written(ticks), Int32Bytes(|message| + lengthLength), message);
    }

    static lemma Midi1Splices(before: seq<byte>, spec: seq<byte>, code: seq<byte>, length: seq<byte>,
                              message: seq<byte>)
      requires |spec| == |length| == 4 && 8 + |code| + |message| <= |before|
      ensures var b1 := Splice(before, 0, spec);
        var b2 := b1[..8] + code + b1[8 + |code|..];
        Splice(Splice(b2, 4, length), 8 + |code|, message)
        == spec + length + code + message + before[8 + |code| + |message|..]
    {
      var n := 8 + |code|;
      AfterCode(before, spec, code);
      HeaderSplice(spec, before[4..8], code, before[n..], length, message);
      TailOfTail(before, n, |message|);
    }

    static lemma TailOfTail(b: seq<byte>, n: nat, k: nat)
      requires n + k <= |b|
      ensures b[n..][k..] == b[n + k..]
    {
    }

    static lemma AfterCode(before: seq<byte>, spec: seq<byte>, code: seq<byte>)
      requires |spec| == 4 && 8 + |code| <= |before|
      ensures var b1 := Splice(before, 0, spec);
        b1[..8] + code + b1[8 + |code|..] == spec + before[4..8] + code + before[8 + |code|..]
    {
      var b1 := Splice(before, 0, spec);
      assert b1[..8] == spec + before[4..8];
      assert b1[8 + |code|..] == before[8 + |code|..];
    }

    static lemma HeaderSplice(spec: seq<byte>, old1: seq<byte>, code: seq<byte>, tail: seq<byte>,
                              length: seq<byte>, message: seq<byte>)
      requires |spec| == |old1| == |length| == 4 && |message| <= |tail|
      ensures Splice(Splice(spec + old1 + code + tail, 4, length), 8 + |code|, message)
        == spec + length + code + message + tail[|message|..]
    {
      assert spec + old1 + code + tail == spec + old1 + (code + tail);
      SpliceFront(spec, old1, code + tail, length);
      var head := spec + length + code;
      assert spec + length + (code + tail) == head + tail[..|message|] + tail[|message|..];
      SpliceFront(head, tail[..|message|], tail[|message|..], message);
    }

    /** `callPluginProcess` as the instrument's MIDI ports see it: the plugin is shown its
        input port, then both ports are cleared. The caller then records the time. */
    method CallPluginProcess(now: Time) returns (shown: seq<byte>)
      requires Valid() && hasInstrument
      requires midi1InPort != null || (midiProtocol == 2 && midi2InPort != null)
      modifies this`lastProcessTime
      modifies if midi1InPort == null then {} else {midi1InPort}
      modifies if midi2InPort == null then {} else {midi2InPort}
      ensures shown == if midiProtocol == 2 && midi2InPort != null then old(midi2InPort[..]) else old(midi1InPort[..])
      ensures midi1InPort != null ==> midi1InPort[..] == Zeros(4 * frameSize)
      ensures midi2InPort != null ==> midi2InPort[..] == Zeros(4 * frameSize)
      ensures midi1InPort != null ==> forall i :: 0 <= i < midi1InPort.Length ==> midi1InPort[i] == 0
      ensures midi2InPort != null ==> forall i :: 0 <= i < midi2InPort.Length ==> midi2InPort[i] == 0
      ensures lastProcessTime == now
    {
      shown := InputPort()[..];
      if midi1InPort != null {
        Put(midi1InPort, 0, Zeros(4 * frameSize));
      }
      if midi2InPort != null {
        Put(midi2InPort, 0, Zeros(4 * frameSize));
      }
      lastProcessTime := now;
    }
  }

  /** A message as the service passes it on, cut at the frame size
      (AudioPluginMidiDeviceService.kt:119-122). */
  predicate Clamped(m: Message, protocol: int, frameSize: nat) {
    InFormat(protocol, m) && |m.bytes| <= frameSize && (m.Midi1? ==> m.ticks < 0x8000_0000)
  }

  /** The longest such message, at the latest time for MIDI 1.0. */
  function Longest(protocol: int, frameSize: nat): (m: Message)
    ensures Clamped(m, protocol, frameSize)
  {
    if protocol == MIDI2 then Ump(Zeros(frameSize)) else Midi1(0x7fff_ffff, Zeros(frameSize))
  }

  /** Every such message fits its port exactly when the frame size leaves room for what
      the format adds to it. */
  lemma ClampedMessagesFit(protocol: int, frameSize: nat)
    ensures (forall m :: Clamped(m, protocol, frameSize) ==> Fits(m, 4 * frameSize))
      <==> if protocol == MIDI2 then 11 <= frameSize < 0x8000_0000 - 32
           else 5 <= frameSize < 0x8000_0000 - 13
  {
    LongestTicks();
    var longest := Longest(protocol, frameSize);
    assert Extent(longest) == frameSize + if protocol == MIDI2 then 32 else 13;
    forall m | Clamped(m, protocol, frameSize)
      ensures Extent(m) <= Extent(longest)
    {
      if m.Midi1? {
        TicksTakeFive(m.ticks);
      }
    }
  }

  lemma TicksTakeFive(ticks: nat)
    requires ticks < 0x8000_0000
    ensures |Written(ticks)| <= 5
  {
    CodeLength(ticks, 5);
    assert Pow128(5) == 0x8_0000_0000;
  }

  lemma LongestTicks()
    ensures |Written(0x7fff_ffff)| == 5
  {
    TicksTakeFive(0x7fff_ffff);
    CodeLength(0x7fff_ffff, 4);
    assert Pow128(4) == 0x1000_0000;
  }

  /** Once a process call has been timed, every MIDI 1.0 message at a time that is not
      negative is carried if a cycle is shorter than five sixths of a second. */
  lemma TimedMessagesAreCarried(bytes: seq<byte>, timestamp: int, elapsed: int, frameSize: nat, sampleRate: nat)
    requires sampleRate > 0 && NanosecondsPerCycle(frameSize, sampleRate) > 0
    requires timestamp + elapsed >= 0 && 6 * frameSize < 5 * sampleRate
    ensures var value := ReducedTimestamp(timestamp, elapsed, NanosecondsPerCycle(frameSize, sampleRate));
      0 <= value && Carried(Midi1(Ticks(value), bytes))
  {
    TicksWithinCycle(timestamp, elapsed, frameSize, sampleRate);
    QuotientBelow(96 * frameSize, sampleRate, 80);
  }

  lemma QuotientBelow(a: nat, b: nat, n: nat)
    requires b > 0 && a < n * b
    ensures a / b < n
  {
    DivisionBelow(a, b);
    if a / b >= n {
      MulMonotone(n, a / b, b);
    }
  }
}
