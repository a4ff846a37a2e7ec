/** Whole runs of the MIDI hand-off: arrivals and process calls on one `MidiProcessor`. */
module MidiRuns {
  import opened Bits
  import opened Options
  import opened MidiInput

  /** A call of `processMidiInput`, or of `callPluginProcess`, and when it is made. */
  datatype Event =
    | Arrival(bytes: seq<byte>, timestamp: int, now: Time)
    | Cycle(now: Time)

  /** The time of the last process call, and 0 before the first one. */
  function LastTimed(events: seq<Event>): Time {
    if events == [] then Time(0, 0)
    else
      match events[|events| - 1]
      case Cycle(now) => now
      case Arrival(_, _, _) => LastTimed(events[..|events| - 1])
  }

  /** What a call of `processMidiInput` demands: see `MidiProcessor.ProcessMidiInput`. */
  predicate Admissible(e: Event, last: Time, protocol: int, cycle: nat, size: nat)
    requires cycle > 0
  {
    e.Arrival? ==>
      var time := TimeOf(last, e.timestamp, e.now, cycle);
      && (protocol != MIDI2 ==> time >= 0 && Ticks(time) < 0x8000_0000)
      && Fits(MessageOf(protocol, time, e.bytes), size)
  }

  predicate AllAdmissible(events: seq<Event>, protocol: int, cycle: nat, size: nat)
    requires cycle > 0
  {
    events == [] ||
    (AllAdmissible(events[..|events| - 1], protocol, cycle, size)
     && Admissible(events[|events| - 1], LastTimed(events[..|events| - 1]), protocol, cycle, size))
  }

  function HappeningOf(e: Event, last: Time, protocol: int, cycle: nat, size: nat): (h: Happening)
    requires cycle > 0 && Admissible(e, last, protocol, cycle, size)
    ensures h.Arrive? ==> InFormat(protocol, h.message) && Fits(h.message, size)
  {
    match e
    case Cycle(_) => Process
    case Arrival(bytes, timestamp, now) => Arrive(MessageOf(protocol, TimeOf(last, timestamp, now, cycle), bytes))
  }

  /** The run of arrivals and process calls that `events` amounts to, each message with the
      time it is given when it arrives. */
  function Happenings(events: seq<Event>, protocol: int, cycle: nat, size: nat): (run: seq<Happening>)
    requires cycle > 0 && AllAdmissible(events, protocol, cycle, size)
    ensures |run| == |events| && RunFits(protocol, size, run)
  {
    if events == [] then []
    else
      var before := events[..|events| - 1];
      Happenings(before, protocol, cycle, size)
        + [HappeningOf(events[|events| - 1], LastTimed(before), protocol, cycle, size)]
  }

  lemma {:induction false} AdmissibleSoFar(events: seq<Event>, k: nat, protocol: int, cycle: nat, size: nat)
    requires cycle > 0 && k <= |events| && AllAdmissible(events, protocol, cycle, size)
    ensures AllAdmissible(events[..k], protocol, cycle, size)
  {
    if k == |events| {
      assert events[..k] == events;
    } else {
      AdmissibleSoFar(events[..|events| - 1], k, protocol, cycle, size);
      assert events[..|events| - 1][..k] == events[..k];
    }
  }

  /** After `events`, the port holds `port`, the last process call was timed at `last`, and
      the plugin has read `seen`. */
  ghost predicate Reached(events: seq<Event>, port: seq<byte>, last: Time, seen: seq<Option<Message>>,
                          protocol: int, cycle: nat, size: nat)
  {
    && cycle > 0 && size >= 32 && AllAdmissible(events, protocol, cycle, size)
    && last == LastTimed(events)
    && port == Port(protocol, size, Happenings(events, protocol, cycle, size))
    && seen == Seen(protocol, size, Happenings(events, protocol, cycle, size))
  }

  /** What one event makes of a port and the time of the last process call, and what the
      plugin reads then. */
  ghost predicate Handled(e: Event, port: seq<byte>, last: Time, port': seq<byte>, last': Time,
                          read: seq<Option<Message>>, protocol: int, cycle: nat, size: nat)
    requires cycle > 0 && size >= 32 && |port| == size && Admissible(e, last, protocol, cycle, size)
  {
    match e
    case Cycle(now) => port' == Zeros(size) && last' == now && read == [Read(protocol, port)]
    case Arrival(bytes, timestamp, now) =>
      && port' == Stored(port, MessageOf(protocol, TimeOf(last, timestamp, now, cycle), bytes))
      && last' == last && read == []
  }

  lemma OneMore(before: seq<Event>, e: Event, port: seq<byte>, last: Time, seen: seq<Option<Message>>,
                port': seq<byte>, last': Time, read: seq<Option<Message>>, protocol: int, cycle: nat, size: nat)
    requires Reached(before, port, last, seen, protocol, cycle, size)
    requires Admissible(e, last, protocol, cycle, size)
    requires Handled(e, port, last, port', last', read, protocol, cycle, size)
    ensures Reached(before + [e], port', last', seen + read, protocol, cycle, size)
  {
    assert (before + [e])[..|before|] == before;
    var run' := Happenings(before + [e], protocol, cycle, size);
    assert run'[..|before|] == Happenings(before, protocol, cycle, size);
  }

  lemma NextAdmissible(events: seq<Event>, k: nat, protocol: int, cycle: nat, size: nat)
    requires cycle > 0 && k < |events| && AllAdmissible(events, protocol, cycle, size)
    ensures Admissible(events[k], LastTimed(events[..k]), protocol, cycle, size)
  {
    AdmissibleSoFar(events, k + 1, protocol, cycle, size);
    assert events[..k + 1][..k] == events[..k];
  }

  lemma ReachedNext(events: seq<Event>, k: nat, port: seq<byte>, last: Time, seen: seq<Option<Message>>,
                    protocol: int, cycle: nat, size: nat)
    requires k < |events| && Reached(events[..k], port, last, seen, protocol, cycle, size)
    requires AllAdmissible(events, protocol, cycle, size)
    ensures |port| == size && Admissible(events[k], last, protocol, cycle, size)
  {
    NextAdmissible(events, k, protocol, cycle, size);
  }

  lemma HandledNext(events: seq<Event>, k: nat, port: seq<byte>, last: Time, seen: seq<Option<Message>>,
                    port': seq<byte>, last': Time, read: seq<Option<Message>>, protocol: int, cycle: nat, size: nat)
    requires k < |events| && Reached(events[..k], port, last, seen, protocol, cycle, size)
    requires |port| == size && Admissible(events[k], last, protocol, cycle, size)
    requires Handled(events[k], port, last, port', last', read, protocol, cycle, size)
    ensures Reached(events[..k + 1], port', last', seen + read, protocol, cycle, size)
  {
    OneMore(events[..k], events[k], port, last, seen, port', last', read, protocol, cycle, size);
    assert events[..k] + [events[k]] == events[..k + 1];
  }

  function CycleOf(p: MidiProcessor): (cycle: nat)
    requires p.Valid()
    ensures cycle > 0
  {
    NanosecondsPerCycle(p.frameSize, p.sampleRate)
  }

  /** The port messages are stored in: the MIDI 2.0 port under MIDI 2.0, if there is one, and
      the MIDI 1.0 port otherwise. */
  predicate IsInputPort(p: MidiProcessor, port: array<byte>)
    reads p
  {
    if p.midiProtocol == 2 && p.midi2InPort != null then port == p.midi2InPort else port == p.midi1InPort
  }

  method HandleArrival(p: MidiProcessor, port: array<byte>, bytes: seq<byte>, timestamp: int, now: Time)
    requires p.Valid() && p.hasInstrument && IsInputPort(p, port) && port.Length == 4 * p.frameSize
    requires Admissible(Arrival(bytes, timestamp, now), p.lastProcessTime, p.midiProtocol, CycleOf(p), port.Length)
    modifies port
    ensures port[..] == Stored(old(port[..]),
      MessageOf(p.midiProtocol, TimeOf(p.lastProcessTime, timestamp, now, CycleOf(p)), bytes))
  {
    assert bytes[0..0 + |bytes|] == bytes;
    assert p.InputPort() == port;
    p.ProcessMidiInput(bytes, 0, |bytes|, timestamp, now);
  }

  /** One event on the processor; what the plugin reads if it is a process call. */
  method Handle(p: MidiProcessor, port: array<byte>, e: Event) returns (read: seq<Option<Message>>)
    requires p.Valid() && p.hasInstrument && IsInputPort(p, port) && port.Length == 4 * p.frameSize
    requires Admissible(e, p.lastProcessTime, p.midiProtocol, CycleOf(p), port.Length)
    modifies p`lastProcessTime
    modifies if p.midi1InPort == null then {} else {p.midi1InPort}
    modifies if p.midi2InPort == null then {} else {p.midi2InPort}
    ensures Handled(e, old(port[..]), old(p.lastProcessTime), port[..], p.lastProcessTime, read,
                    p.midiProtocol, CycleOf(p), port.Length)
  {
    match e {
      case Arrival(bytes, timestamp, now) =>
        HandleArrival(p, port, bytes, timestamp, now);
        read := [];
      case Cycle(now) =>
        var shown := p.CallPluginProcess(now);
        read := [Read(p.midiProtocol, shown)];
    }
  }

  /** All of them, on a new processor: what the plugin reads is `Seen`, and so it is the
      latest message each time exactly when every message due is one the format carries. */
  method RunHandOff(p: MidiProcessor, port: array<byte>, events: seq<Event>) returns (seen: seq<Option<Message>>)
    requires p.Valid() && p.hasInstrument && IsInputPort(p, port) && port.Length == 4 * p.frameSize
    requires port[..] == Zeros(port.Length) && p.lastProcessTime == Time(0, 0)
    requires AllAdmissible(events, p.midiProtocol, CycleOf(p), port.Length)
    modifies p`lastProcessTime
    modifies if p.midi1InPort == null then {} else {p.midi1InPort}
    modifies if p.midi2InPort == null then {} else {p.midi2InPort}
    ensures var run := Happenings(events, p.midiProtocol, CycleOf(p), port.Length);
      && seen == Seen(p.midiProtocol, port.Length, run)
      && (seen == Due(run) <==> DueCarried(run))
  {
    seen := [];
    ReachedStart(events, p.midiProtocol, CycleOf(p), port.Length);
    for k := 0 to |events|
      invariant Reached(events[..k], port[..], p.lastProcessTime, seen, p.midiProtocol, CycleOf(p), port.Length)
    {
      seen := HandleNext(p, port, events, k, seen);
    }
    assert events[..|events|] == events;
    ReachedEnd(events, port[..], p.lastProcessTime, seen, p.midiProtocol, CycleOf(p), port.Length);
  }

  lemma ReachedStart(events: seq<Event>, protocol: int, cycle: nat, size: nat)
    requires cycle > 0 && size >= 32
    ensures Reached(events[..0], Zeros(size), Time(0, 0), [], protocol, cycle, size)
  {
    assert events[..0] == [];
  }

  /** Event `k` of them. */
  method HandleNext(p: MidiProcessor, port: array<byte>, events: seq<Event>, k: nat, seen: seq<Option<Message>>)
    returns (seen': seq<Option<Message>>)
    requires p.Valid() && p.hasInstrument && IsInputPort(p, port) && port.Length == 4 * p.frameSize
    requires k < |events| && AllAdmissible(events, p.midiProtocol, CycleOf(p), port.Length)
    requires Reached(events[..k], port[..], p.lastProcessTime, seen, p.midiProtocol, CycleOf(p), port.Length)
    modifies p`lastProcessTime
    modifies if p.midi1InPort == null then {} else {p.midi1InPort}
    modifies if p.midi2InPort == null then {} else {p.midi2InPort}
    ensures Reached(events[..k + 1], port[..], p.lastProcessTime, seen', p.midiProtocol, CycleOf(p), port.Length)
  {
    ghost var before, last := port[..], p.lastProcessTime;
    ReachedNext(events, k, before, last, seen, p.midiProtocol, CycleOf(p), port.Length);
    var read := Handle(p, port, events[k]);
    HandledNext(events, k, before, last, seen, port[..], p.lastProcessTime, read,
                p.midiProtocol, CycleOf(p), port.Length);
    seen' := seen + read;
  }

  lemma ReachedEnd(events: seq<Event>, port: seq<byte>, last: Time, seen: seq<Option<Message>>,
                   protocol: int, cycle: nat, size: nat)
    requires Reached(events, port, last, seen, protocol, cycle, size)
    ensures var run := Happenings(events, protocol, cycle, size);
      seen == Seen(protocol, size, run) && (seen == Due(run) <==> DueCarried(run))
  {
    HandOffDeliversLatest(protocol, size, Happenings(events, protocol, cycle, size));
  }
}
