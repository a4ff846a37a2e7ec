# Verification of aap-midi-device-service

A Dafny 4.11 model of the native half of the service, with proofs. `dafny verify dfyconfig.toml`
checks all of it. Three connected components are modelled.

**The byte ring (`zix/ring.cpp`).** `Bits` and `RingArithmetic` hold the 32-bit arithmetic with its
wrap-around, masks and bit smearing. `Ring` is the ring as a class over a byte array, proved to be a
bounded queue. `RingProtocol` is the same code as a transition system of one writer and one reader
whose steps interleave freely; its main results are linearisability against the sequential bounded
queue, first-in first-out delivery, disjoint copies and wait-freedom.

**The processor (`AAPMidiProcessor.cpp`).** Its fields fall into three groups that different methods
work on, and each group is one class: `AudioPipeline.AudioProcessor` (ring, interleave buffer, output
ports), `MidiInput.MidiProcessor` (MIDI input ports, protocol, time of the last process call) and
`Lifecycle.ProcessorLifecycle` (state, instances, stream). The class methods are proved against
functions on values, and whole runs of those functions are what `AudioRuns`, `AudioStalls`, `MidiInput`
and `Lifecycle` prove theorems about. `AudioBuffers` starts the audio class, runs it under a stream and
says what is in the stream's buffers afterwards; `MidiRuns` does the same for the MIDI class.
`Interleave` and `SevenBit` are the two pieces of data layout, and `Divisors` the number theory that one
of the stall conditions needs.

**Universal MIDI Packets (`cmidi2.h`).** `BigEndian` reads words, `UmpStream` walks packet streams,
`Sysex` and `MixedDataSet` split long messages, `ChannelVoice` builds and reads short ones. The
standard is the MIDI Association's Universal MIDI Packet (UMP) Format and MIDI 2.0 Protocol,
M2-104-UM version 1.0.

## Where the code departs from its intent

The model follows the code. Where a departure depends on the input, a theorem says exactly when it does
no harm.

- The delta-time encoder divides by 128 but stores `value % 80` and clears the top bit
  (AAPMidiProcessor.cpp:312-315): right exactly below 80. The code is low digit first, so even the
  intended one is not the variable-length quantity of Standard MIDI Files.
- A callback asks the ring for `oboeNumFrames` floats and leaves out the channel count
  (AAPMidiProcessor.cpp:40, 63), so it fills only that many floats of a multi-channel buffer:
  `RunBuffersRightExactly` and `ShowsExactly`, with `StereoFrameHalfFilled` as the failing call.
- Two blocks of ring are enough for requests of at most one block. Larger ones can find no room for a
  block and too few bytes for themselves, and then nothing is delivered any more
  (AAPMidiProcessor.cpp:40-76): `InitializedRingFlowsExactly`, `ConstantRequestsStallExactly`.
- The interleave index steps by the number of ports, the ring write by the number of channels
  (AAPMidiProcessor.cpp:294, 299): right exactly when they agree, and inside the buffer exactly when
  there are no more ports than channels.
- `deactivate` stops the instances before it closes the stream or leaves ACTIVE
  (AAPMidiProcessor.cpp:252-261), so a callback that has found ACTIVE, even before `deactivate` began,
  runs the instances it has been overtaken on (AAPMidiProcessor.cpp:266-267):
  `InactivePluginsRunExactly`, with `HazardIsReachable` as the failing run.
- Instance number 0 doubles as "no instrument yet" (AAPMidiProcessor.cpp:147-160):
  `SecondInstrumentRefused`. And an instance numbered 0 passes for the instrument where there is none
  (AAPMidiProcessor.cpp:268, 287, 323, 330): `OtherTakenForInstrument`.
- An instrument with only a MIDI 2.0 input port has no port to store in under MIDI 1.0, which is the
  protocol to begin with (AAPMidiProcessor.cpp:331): `PortChosenExactly`.
- A UMP message of no bytes looks like no message (AAPMidiProcessor.cpp:376).
- `cmidi2_ump_read_uint32_bytes` shifts a 32-bit value by up to 56 places (cmidi2.h:305), which C
  leaves undefined. `ReadUint32Bytes` takes shift counts modulo 32, the intended reading.
- `CMIDI2_UMP_SEQUENCE_FOREACH` loads four bytes wherever it stands (cmidi2.h:721-729): past the end
  exactly when it visits one of the last three positions, which it may do for every length but the
  multiples of 4 below 256 (`SafeLengthsExactly`).
- The SysEx splitters take the length as a byte (cmidi2.h:388-391, 411-414): right exactly up to 255.
- The Mixed Data Set splitter uses three different chunk sizes, does not cut the last payload to what
  is left, and passes a 16-bit byte count (cmidi2.h:423-431, 483-489): `WrittenTilesExactly` has the
  lengths that still come out right, and `ReadsInsideLengths` those for which nothing past the data is
  read.
- Mixed Data Set ids are not cut to four bits (cmidi2.h:442, 463): right exactly below 16.
- The Mixed Data Set header is stored in host order and read big-endian (cmidi2.h:443-449, 690-710).
- `zix_ring_new` documents that at most `size` - 1 bytes fit (ring.h:47); the code stores up to the
  rounded size less one (`DocumentedLimitExactly`).

## What callers must provide

A ring may be asked for with any 32-bit number; to be used it must have been asked for with 1 to 2^31
bytes. The others wrap round to a ring of no bytes that claims to have 2^32 - 1 (`NewRingClaims`).

`AudioProcessor` takes blocks of at most 2^28 floats, so that twice a block is such a request; no more
ports than channels, since more write past the interleave buffer (`CellsStayInside`); distinct ports of
one block each; and requests below 2^32 bytes.

`MidiProcessor` takes an instrument that has a port to store in, messages that fit it and, for MIDI 1.0,
times that are not negative, since the C conversion to ticks is undefined for others. Fresh shared
memory is taken to be zero, and hosts to be little-endian.

The SysEx7 functions take messages that hold the closing 0xF7 (cmidi2.h:366 reads on until it finds one).

## Model

| member | source | states |
|---|---|---|
| `RingProtocol.RunsAreLinearizable` | aap-midi-device-service/src/main/cpp/zix/ring.cpp:171-228 | In every interleaving of one writer and one reader (head loads, checks, single-byte copies in any order and head publications are separate steps), the completed calls in the order they took effect are a run of a bounded FIFO queue of size-1 bytes, refusals included, that ends in the bytes now stored; each thread was told exactly its own part of that run; and at every moment the record so far starts the final one and holds, of each thread, all calls that have returned and none that has not begun |
| `RingProtocol.ReturnedBeforeBegun` | aap-midi-device-service/src/main/cpp/zix/ring.cpp:171-228 | A call that has returned before another begins, of the same thread or the other, comes before it in that order |
| `RingProtocol.RunsAreFifo` | aap-midi-device-service/src/main/cpp/zix/ring.cpp:112-228 | Nothing is lost, duplicated or reordered: what is stored is the accepted bytes not yet passed over, and every read or peek returned the accepted bytes at its own place in the stream. A write was refused exactly when it did not fit beside the bytes then stored, a read, peek or skip exactly when there were too few of them |
| `RingProtocol.CopiesAreDisjoint` | aap-midi-device-service/src/main/cpp/zix/ring.cpp:112-228 | While both threads copy, no position the reader may load is one the writer may store, and both stay inside the buffer |
| `RingProtocol.CopiesStayInBounds` | aap-midi-device-service/src/main/cpp/zix/ring.cpp:152-228 | Every byte a copying thread has left lies inside the buffer, and so does the head it publishes |
| `RingProtocol.CallsAreWaitFree` | aap-midi-device-service/src/main/cpp/zix/ring.h:35-40 | Both ends are realtime safe: a thread inside a call can always step, each step brings its call nearer its end, and no step of the other thread moves that end away |
| `RingProtocol.EventsFallInsideCalls` | aap-midi-device-service/src/main/cpp/zix/ring.cpp:177-228 | A call takes effect at one of its own steps, while it is in progress |
| `RingProtocol.ReplayIsFifo` | aap-midi-device-service/src/main/cpp/zix/ring.cpp:177-228 | A history the sequential queue accepts is first-in first-out and never holds more than the capacity |
| `RingProtocol.StepKeepsInv` | aap-midi-device-service/src/main/cpp/zix/ring.cpp:112-228 | Every single step keeps the invariant that links heads, stale snapshots, half-made copies, stored bytes and the record of calls |
| `RingProtocol.StaleHeadStays` | aap-midi-device-service/src/main/cpp/zix/ring.cpp:180-212 | A consuming step moves the real read head only inside what a writer's stale snapshot counts as occupied, so a stale head only underestimates the free space |
| `RingProtocol.PeekThenSkipIsRead` | aap-midi-device-service/src/main/cpp/zix/ring.cpp:171-204 | In any history, a peek and a later skip of the same bytes, whatever writes come between, leave what a read at the place of the skip leaves |
| `RingArithmetic.NextPowerOfTwo` | aap-midi-device-service/src/main/cpp/zix/ring.cpp:63-75 | For requests of 1 to 2^31 the bit smearing yields the least power of two not below the request; 0 and larger requests wrap round to 0 |
| `RingArithmetic.SmearedValue` | aap-midi-device-service/src/main/cpp/zix/ring.cpp:67-73 | After the five smearing steps all digits below the top one are set, so the value is 2^k - 1 |
| `Bits.MaskIsModulo` | aap-midi-device-service/src/main/cpp/zix/ring.cpp:118-118 | Masking with 2^k - 1 is reduction modulo 2^k |
| `RingArithmetic.SpaceLaws` | aap-midi-device-service/src/main/cpp/zix/ring.cpp:112-150 | Under unsigned wrap-around, read space is (w - r) mod size, and read space and write space together are always size - 1 |
| `RingArithmetic.MaskedHead` | aap-midi-device-service/src/main/cpp/zix/ring.cpp:185-225 | Advancing a head by at most one lap does not overflow 32 bits, and the mask takes off exactly that lap |
| `Ring.ZixRing.constructor` | aap-midi-device-service/src/main/cpp/zix/ring.cpp:77-87 | For requests of 1 to 2^31 bytes a new ring is empty and its size is the least power of two that holds the request; for others its buffer has no bytes and its mask is 2^32 - 1 |
| `RingArithmetic.NewRingClaims` | aap-midi-device-service/src/main/cpp/zix/ring.cpp:63-87 | A new ring claims no more free space than its buffer has exactly for requests of 1 to 2^31 bytes; the others claim 2^32 - 1 bytes of none |
| `RingArithmetic.DocumentedLimitExactly` | aap-midi-device-service/src/main/cpp/zix/ring.h:43-50 | A ring holds at most one byte less than was asked for, as documented, exactly when that was a power of two |
| `Ring.ZixRing.GetReadSpace` | aap-midi-device-service/src/main/cpp/zix/ring.cpp:122-126 | Read space is the length of the queue |
| `Ring.ZixRing.GetWriteSpace` | aap-midi-device-service/src/main/cpp/zix/ring.cpp:140-144 | Write space is what is missing to size - 1 bytes |
| `Ring.ZixRing.CopyWindow` | aap-midi-device-service/src/main/cpp/zix/ring.cpp:160-166 | The one or two pieces copied are the queue's next bytes, also when they end exactly at the end of the buffer |
| `Ring.ZixRing.Peek` | aap-midi-device-service/src/main/cpp/zix/ring.cpp:152-175 | Copies a prefix of the queue and changes nothing else, or, if there are too few bytes, changes nothing and returns 0 |
| `Ring.ZixRing.Read` | aap-midi-device-service/src/main/cpp/zix/ring.cpp:177-190 | Delivers a prefix of the queue and drops it, or changes nothing and returns 0 |
| `Ring.ZixRing.Skip` | aap-midi-device-service/src/main/cpp/zix/ring.cpp:192-204 | Drops a prefix of the queue, or changes nothing and returns 0 |
| `Ring.ZixRing.Write` | aap-midi-device-service/src/main/cpp/zix/ring.cpp:206-228 | Appends all the bytes when they fit, also across the end of the buffer, or changes nothing and returns 0 |
| `Ring.PeekThenSkip` | aap-midi-device-service/src/main/cpp/zix/ring.cpp:171-204 | A peek followed by a skip of the same number of bytes, on the ring itself, meets the contract of a read |
| `RingContents.StoreExtendsWindow` | aap-midi-device-service/src/main/cpp/zix/ring.cpp:215-225 | A wrapping store just behind the stored window extends that window by exactly the bytes stored |
| `Interleave.InterleavePorts` | aap-midi-device-service/src/main/cpp/AAPMidiProcessor.cpp:288-295 | The nested loops leave the interleaved block in the buffer and touch no cell beyond the last frame |
| `Interleave.InterleavedCell` | aap-midi-device-service/src/main/cpp/AAPMidiProcessor.cpp:294-294 | Sample i of port p is in cell i*ports+p |
| `Interleave.BytesOfFloat` | aap-midi-device-service/src/main/cpp/AAPMidiProcessor.cpp:293-299 | Each float enters the ring as its own four bytes, in the order memory holds them |
| `Interleave.CellRoundTrip` | aap-midi-device-service/src/main/cpp/AAPMidiProcessor.cpp:293-294 | Frames and ports correspond one to one with cells |
| `Interleave.Deinterleaved` | aap-midi-device-service/src/main/cpp/AAPMidiProcessor.cpp:288-295 | Picking every ports-th cell gives each port's own block back |
| `Interleave.PortsReachChannels` | aap-midi-device-service/src/main/cpp/AAPMidiProcessor.cpp:288-299 | With fewer ports than channels the cell index is wrong: every sample lands in its channel's column exactly when the two numbers agree or a block is one frame |
| `Interleave.CellsStayInside` | aap-midi-device-service/src/main/cpp/AAPMidiProcessor.cpp:288-299 | The loops stay inside the frames x channels cells exactly when there are no more ports than channels, or no frames |
| `AudioPipeline.AudioProcessor.constructor` | aap-midi-device-service/src/main/cpp/AAPMidiProcessor.cpp:69-78 | The ring is sized from twice the block of frames x channels floats, and starts empty |
| `AudioPipeline.AudioProcessor.Activate` | aap-midi-device-service/src/main/cpp/AAPMidiProcessor.cpp:214-241 | ACTIVE from CREATED or INACTIVE if the stream opens, and ERROR otherwise, as in the lifecycle |
| `AudioPipeline.AudioProcessor.FillAudioOutput` | aap-midi-device-service/src/main/cpp/AAPMidiProcessor.cpp:282-300 | The whole interleave buffer, ports first and then what no port reaches, goes into the ring if it fits, and not at all otherwise |
| `AudioPipeline.AudioProcessor.OnAudioReady` | aap-midi-device-service/src/main/cpp/AAPMidiProcessor.cpp:23-67 | Outside ACTIVE nothing changes; in ACTIVE the plugin runs exactly when the ring holds less than the request, its block enters if it fits, and a full request or nothing is delivered |
| `AudioPipeline.AudioProcessor.MeetsRunConditions` | aap-midi-device-service/src/main/cpp/AAPMidiProcessor.cpp:76-78 | With as many output ports as channels the bytes of a block are the interleaved ports alone, and the ring initialize makes holds two blocks less one byte |
| `AudioRuns.FloatsInOrder` | aap-midi-device-service/src/main/cpp/AAPMidiProcessor.cpp:40-63 | For any plugin output and any run of requests of at most one block, the four bytes at 4g that leave the ring are those of the g-th float the plugin played |
| `AudioRuns.ExpectedSample` | aap-midi-device-service/src/main/cpp/AAPMidiProcessor.cpp:286-299 | That float, for g = (k*F + i)*C + c, is sample i of port c of plugin run k |
| `AudioRuns.PortsPlay` | aap-midi-device-service/src/main/cpp/AAPMidiProcessor.cpp:282-300 | The blocks FillAudioOutput puts into the ring hold the plugin's samples frame by frame, which is what FloatsInOrder asks of them |
| `AudioBuffers.RunStream` | aap-midi-device-service/src/main/cpp/AAPMidiProcessor.cpp:23-67 | Called again and again in ACTIVE, OnAudioReady takes the ring through Serve, and each buffer the stream handed over holds what its callback delivered and, behind that, what it held before |
| `AudioBuffers.BufferRightExactly` | aap-midi-device-service/src/main/cpp/AAPMidiProcessor.cpp:40-63 | Within any run of requests of at most one block, a callback's buffer of frames x channels floats is wholly fresh, each frame and channel holding the plugin's float for it, exactly when there is one channel or no frame was asked for |
| `AudioBuffers.RunBuffersRightExactly` | aap-midi-device-service/src/main/cpp/AAPMidiProcessor.cpp:40-63 | Every buffer of a run is so exactly when there is one channel or no callback asked for a frame |
| `AudioBuffers.StereoFrameHalfFilled` | aap-midi-device-service/src/main/cpp/AAPMidiProcessor.cpp:40-63 | One frame of two channels: four of the eight bytes are written, and the others keep what they held |
| `AudioBuffers.ShowsExactly` | aap-midi-device-service/src/main/cpp/AAPMidiProcessor.cpp:40-63 | A callback's buffer shows the plugin's float for each frame and channel, whatever it held before, exactly when there is one channel or no frame was asked for |
| `AudioBuffers.PlayFromStart` | aap-midi-device-service/src/main/cpp/AAPMidiProcessor.cpp:23-78 | From initialize and activate through any run of such requests: with one channel, or for no frames, the buffer the stream gets back is right in every place; otherwise everything behind its first floats is what it was |
| `AudioRuns.RequestsFlow` | aap-midi-device-service/src/main/cpp/AAPMidiProcessor.cpp:40-76 | Over such a run no write is refused, no read is short, less than a block stays behind, and what was delivered plus what stays is the plugin's blocks in order |
| `AudioRuns.ProcessCallsAreMinimal` | aap-midi-device-service/src/main/cpp/AAPMidiProcessor.cpp:40-63 | Over such a run the plugin runs exactly ceil(delivered / block) times |
| `AudioRuns.RingSizeIsTight` | aap-midi-device-service/src/main/cpp/AAPMidiProcessor.cpp:76-76 | No request of up to one block is ever cut short, for any run, exactly when the ring holds at least two blocks less one byte |
| `AudioRuns.ConstantRequestsFlow` | aap-midi-device-service/src/main/cpp/AAPMidiProcessor.cpp:40-63 | For one request size asked for repeatedly, no read is short exactly when it is at most one block |
| `AudioRuns.LargeRequestsStall` | aap-midi-device-service/src/main/cpp/AAPMidiProcessor.cpp:40-76 | When the ring holds two blocks less one byte and every request exceeds a block, the first block enters, every later write is refused, every read is empty, and nothing is ever delivered |
| `AudioRuns.NothingDeliveredExactlyAtPowersOfTwo` | aap-midi-device-service/src/main/cpp/AAPMidiProcessor.cpp:76-76 | With the ring that initialize makes, requests between one and two blocks never deliver a single byte exactly when two blocks are a power of two bytes; otherwise they deliver at least once |
| `AudioStalls.RefusalsExactly` | aap-midi-device-service/src/main/cpp/AAPMidiProcessor.cpp:40-63 | For requests of up to n bytes, no run of them ever refuses a block exactly when the ring holds a block and n - 1 bytes |
| `AudioStalls.RefusalIsForEver` | aap-midi-device-service/src/main/cpp/AAPMidiProcessor.cpp:40-63 | Once the ring has no room for a block, later requests above what it stores, however many, change neither queue nor output |
| `AudioStalls.StallsExactly` | aap-midi-device-service/src/main/cpp/AAPMidiProcessor.cpp:40-63 | Some run of requests of up to n bytes comes to a point where asking for n bytes again and again delivers nothing more, exactly when the ring holds less than a block and n - 1 bytes |
| `AudioStalls.InitializedRingFlowsExactly` | aap-midi-device-service/src/main/cpp/AAPMidiProcessor.cpp:76-76 | With the ring that initialize makes, no run of requests of up to n bytes refuses a block, and none stalls, exactly when n is at most the ring size less a block |
| `AudioStalls.ConstantRequestsStallExactly` | aap-midi-device-service/src/main/cpp/AAPMidiProcessor.cpp:40-63 | Asking for n bytes from the start and for nothing else stalls exactly when the ring holds less than a block and n - gcd(block, n) bytes |
| `AudioStalls.RoundedRingStallsToo` | aap-midi-device-service/src/main/cpp/AAPMidiProcessor.cpp:76-76 | Rounding does not always help: a block of 28 bytes gets a ring of 64, and requests of 40 bytes stall in it |
| `SevenBit.Set7BitEncodedLength` | aap-midi-device-service/src/main/cpp/AAPMidiProcessor.cpp:309-319 | For every int, negative ones included, the loop as written ends and stores the code Written(value) and nothing else |
| `SevenBit.WrittenAt` | aap-midi-device-service/src/main/cpp/AAPMidiProcessor.cpp:312-315 | Byte i of that code is 0 if another follows and the value is positive; otherwise it is the value divided by 128^i, rounded towards zero, modulo 80, negated in a byte for negative values |
| `SevenBit.CodeLength` | aap-midi-device-service/src/main/cpp/AAPMidiProcessor.cpp:309-319 | That code has at most k bytes exactly for magnitudes below 128^k |
| `SevenBit.IntendedRoundTrip` | aap-midi-device-service/src/main/cpp/AAPMidiProcessor.cpp:309-319 | The intended code, low digit first, is read back exactly whatever bytes follow it |
| `SevenBit.IntendedIsShortest` | aap-midi-device-service/src/main/cpp/AAPMidiProcessor.cpp:309-319 | The intended code has at most k bytes exactly for values below 128^k |
| `SevenBit.WrittenRoundTripsBelow80` | aap-midi-device-service/src/main/cpp/AAPMidiProcessor.cpp:312-315 | Of all ints, what the written encoder (modulo 80, top bit cleared) stores is read back as the value, and is the intended code, exactly for 0 to 79 |
| `MidiInput.MidiProcessor.ProcessMidiInput` | aap-midi-device-service/src/main/cpp/AAPMidiProcessor.cpp:328-396 | Under MIDI 2.0 the message is stored in the MIDI 2.0 port if there is one, and the MIDI 1.0 port stays as it was; otherwise in the MIDI 1.0 port, and the other stays. What the port then holds is given byte by byte, over whatever it held before |
| `MidiInput.StoredHolds` | aap-midi-device-service/src/main/cpp/AAPMidiProcessor.cpp:371-394 | A UMP message is stored as its length, lowest byte first, the number 2 and zeros, with the data from byte 32 on; a MIDI 1.0 message as the number 192, the length of the rest, the delta time and the data |
| `MidiInput.AssignedTime` | aap-midi-device-service/src/main/cpp/AAPMidiProcessor.cpp:356-366 | Before any process call was timed a message keeps its timestamp; after one, its time is within one cycle, has the sign of timestamp plus time elapsed, and differs from that by whole cycles |
| `MidiInput.TicksElapsed` | aap-midi-device-service/src/main/cpp/AAPMidiProcessor.cpp:302-307 | A time of v nanoseconds is the whole number of ticks of 2,000,000,000/192 ns it holds |
| `MidiInput.CycleLasts` | aap-midi-device-service/src/main/cpp/AAPMidiProcessor.cpp:364-364 | A cycle is the whole number of nanoseconds that the frame size lasts at the sample rate |
| `MidiInput.MidiProcessor.CallPluginProcess` | aap-midi-device-service/src/main/cpp/AAPMidiProcessor.cpp:265-277 | The plugin is shown the input port as it stands, and both MIDI ports are then cleared |
| `MidiInput.MidiProcessor.PortChosenExactly` | aap-midi-device-service/src/main/cpp/AAPMidiProcessor.cpp:328-335 | An instrument has no port to store in exactly when it has no MIDI 1.0 input port and either the protocol is not MIDI 2.0 or it has no MIDI 2.0 port |
| `MidiRuns.RunHandOff` | aap-midi-device-service/src/main/cpp/AAPMidiProcessor.cpp:265-396 | Every run of the two methods on one processor reads what Seen says of it, each message with the time it was given on arrival; so it reads the latest message each time exactly when every message due is one the format carries |
| `MidiInput.StoredRead` | aap-midi-device-service/src/main/cpp/AAPMidiProcessor.cpp:371-394 | Storing and reading are inverse, whatever the port held before, exactly for UMP messages that are not empty and for MIDI 1.0 messages of less than 80 ticks |
| `MidiInput.HandOffDeliversLatest` | aap-midi-device-service/src/main/cpp/AAPMidiProcessor.cpp:265-277 | Over every run of arrivals and process calls, each process call reads the last message since the previous one, or none, exactly when every message due is one the format carries |
| `MidiInput.TicksWithinCycle` | aap-midi-device-service/src/main/cpp/AAPMidiProcessor.cpp:302-366 | Once timed, and if timestamp plus elapsed time is not negative, ticks are at most 96*F/sampleRate |
| `MidiInput.TimedMessagesAreCarried` | aap-midi-device-service/src/main/cpp/AAPMidiProcessor.cpp:302-394 | With less than five sixths of a second of samples in a cycle, every timed MIDI 1.0 message is carried |
| `MidiInput.CarriedTicks` | aap-midi-device-service/src/main/cpp/AAPMidiProcessor.cpp:302-366 | Every time within a cycle gives ticks below 80 exactly when a cycle is at most 833333334 ns |
| `MidiInput.ClampedMessagesFit` | aap-midi-device-service/src/main/java/org/androidaudioplugin/midideviceservice/AudioPluginMidiDeviceService.kt:119-124 | All messages cut at the frame size F fit a port of 4F bytes exactly when F is at least 11 for UMP and at least 5 for MIDI 1.0 at any ticks, up to what an int can count |
| `Lifecycle.ProcessorLifecycle.InstantiatePlugin` | aap-midi-device-service/src/main/cpp/AAPMidiProcessor.cpp:137-211 | In CREATED, unless it is a second instrument, the instance joins the list; otherwise the state is ERROR and nothing else changes |
| `Lifecycle.ProcessorLifecycle.Activate` | aap-midi-device-service/src/main/cpp/AAPMidiProcessor.cpp:214-241 | From CREATED or INACTIVE, if the stream opens, all instances run and the state is ACTIVE; otherwise the state is ERROR and nothing else changes |
| `Lifecycle.ProcessorLifecycle.Deactivate` | aap-midi-device-service/src/main/cpp/AAPMidiProcessor.cpp:244-262 | From ACTIVE all instances stop, the stream closes and the state is INACTIVE; otherwise the state is ERROR and nothing else changes |
| `Lifecycle.ProcessorLifecycle.SetMidiProtocol` | aap-midi-device-service/src/main/cpp/AAPMidiProcessor.cpp:337-346 | In CREATED the protocol is set; otherwise the state is ERROR and nothing else changes |
| `Lifecycle.CallOutcome` | aap-midi-device-service/src/main/cpp/AAPMidiProcessor.cpp:137-346 | The transition table: a call out of place, or an activate whose stream does not open, leads to ERROR and changes nothing else; one in place leads to its state with exactly the changes listed |
| `Lifecycle.CallsKeepConsistent` | aap-midi-device-service/src/main/cpp/AAPMidiProcessor.cpp:137-262 | Over every call sequence STOPPED is never reached, ACTIVE means an open stream with every instance running, CREATED and INACTIVE the opposite, and an instrument is only taken in beside ones numbered 0 |
| `Lifecycle.ErrorIsFinal` | aap-midi-device-service/src/main/cpp/AAPMidiProcessor.cpp:137-262 | After ERROR no call changes anything, so an open stream stays open |
| `Lifecycle.FrozenAfterCreated` | aap-midi-device-service/src/main/cpp/AAPMidiProcessor.cpp:137-346 | Once CREATED is left, instances, protocol and instrument never change again |
| `Lifecycle.CreatedHonoursCalls` | aap-midi-device-service/src/main/cpp/AAPMidiProcessor.cpp:137-346 | While CREATED lasts, every instance asked for is there in order and the protocol set last is in force |
| `Lifecycle.SecondInstrumentRefused` | aap-midi-device-service/src/main/cpp/AAPMidiProcessor.cpp:147-160 | After every call sequence that stays in CREATED, a further instrument is an error exactly when one with a number other than 0 has been taken in |
| `Lifecycle.SecondInstrumentSlipsIn` | aap-midi-device-service/src/main/cpp/AAPMidiProcessor.cpp:147-160 | In particular two instruments in a row are both taken in exactly when the host numbered the first one 0 |
| `Lifecycle.OtherTakenForInstrument` | aap-midi-device-service/src/main/cpp/AAPMidiProcessor.cpp:321-335 | If the host numbers instances apart, another instance passes for the instrument exactly when none was asked for and one is numbered 0 |
| `Lifecycle.CallbackHazard` | aap-midi-device-service/src/main/cpp/AAPMidiProcessor.cpp:23-262 | In every reachable state instance i is inactive exactly when no activate has got to it since it was added or last stopped; a callback that checks the state inside activate does not go on to run the plugins |
| `Lifecycle.InactivePluginsRunExactly` | aap-midi-device-service/src/main/cpp/AAPMidiProcessor.cpp:23-267 | Over every interleaving of the calls, which stop and start instances one at a time, with callbacks, which check the state and then run instances one at a time: a callback ran an inactive instance exactly when one ran instance i while deactivate was past i, activate had not got to i, or the stream was closed |
| `Lifecycle.WaitingCloseNarrowsHazard` | aap-midi-device-service/src/main/cpp/AAPMidiProcessor.cpp:252-267 | If closing the stream waits for a callback in progress, the instance a callback runs next is a stopped one exactly when deactivate is in progress and past it |
| `Lifecycle.HazardIsReachable` | aap-midi-device-service/src/main/cpp/AAPMidiProcessor.cpp:252-267 | A concrete run with two instances: a callback runs the first before deactivate begins, and the second after deactivate has stopped it |
| `Lifecycle.CallbackOutrunsDeactivate` | aap-midi-device-service/src/main/cpp/AAPMidiProcessor.cpp:252-267 | A concrete run in which a callback runs an instance inside deactivate and no inactive one |
| `Lifecycle.StepsRefineActivate` | aap-midi-device-service/src/main/cpp/AAPMidiProcessor.cpp:227-240 | Undisturbed, the inner steps of activate do what the whole call does |
| `Lifecycle.StepsRefineDeactivate` | aap-midi-device-service/src/main/cpp/AAPMidiProcessor.cpp:252-261 | Undisturbed, the inner steps of deactivate do what the whole call does |
| `BigEndian.ReadUint32Bytes` | aap-midi-device-service/src/main/cpp/cmidi2.h:301-307 | Four bytes read as b0*2^24 + b1*2^16 + b2*2^8 + b3, with the intended shift counts |
| `BigEndian.ReadUint64Bytes` | aap-midi-device-service/src/main/cpp/cmidi2.h:309-315 | Eight bytes read as one number, the first weighing 2^56 and the last 1 |
| `BigEndian.LayoutOfValue` | aap-midi-device-service/src/main/cpp/cmidi2.h:309-315 | Laying a word out big-endian undoes reading it |
| `UmpStream.StepOfFirstByte` | aap-midi-device-service/src/main/cpp/cmidi2.h:108-121 | The packet size depends only on the top digit of the first byte |
| `UmpStream.SequenceNext` | aap-midi-device-service/src/main/cpp/cmidi2.h:108-121 | The step is 4, 8, 16 or 255 bytes for a first byte below 0x30, 0x50, 0x60 or above |
| `UmpStream.SequenceForEach` | aap-midi-device-service/src/main/cpp/cmidi2.h:721-729 | The FOREACH loop ends on any bytes and visits the positions of Walk, each one step behind the one before and the last one step from the end, wherever the loads of that walk stay in memory |
| `UmpStream.WalkVisitsStarts` | aap-midi-device-service/src/main/cpp/cmidi2.h:108-121 | Over serialised well-formed packets of types 0 to 5 the walk visits exactly their starts, in order, and loads nothing past their end, whatever memory follows, if any |
| `UmpStream.WalkParsesExactly` | aap-midi-device-service/src/main/cpp/cmidi2.h:108-121 | Memory is a serialised list of well-formed packets exactly when the walk lands on its end with known types, and cutting it there is the only reading |
| `UmpStream.LoadsPastEndExactly` | aap-midi-device-service/src/main/cpp/cmidi2.h:721-729 | On any bytes, some load of the walk reaches past the end exactly when the last position visited is one of the last three |
| `UmpStream.OneByteLoadsFour` | aap-midi-device-service/src/main/cpp/cmidi2.h:721-729 | A stream of one zero byte is loaded as four bytes |
| `UmpStream.VisitedExactly` | aap-midi-device-service/src/main/cpp/cmidi2.h:108-121 | On some bytes the walk visits a position exactly when it is a number of steps of 4 and of 255, that is, not below 255 times the distance to the next multiple of 4 |
| `UmpStream.LoadsReachExactly` | aap-midi-device-service/src/main/cpp/cmidi2.h:721-729 | For each of the three bytes behind the end, some stream of that length has it loaded exactly when such a position lies close enough before the end |
| `UmpStream.SafeLengthsExactly` | aap-midi-device-service/src/main/cpp/cmidi2.h:721-729 | No stream of a given length is loaded past its end exactly when the length is a multiple of 4 below 256 |
| `UmpStream.KnownTypesLoadInside` | aap-midi-device-service/src/main/cpp/cmidi2.h:108-121 | In a stream of whole words whose visited types are known, every load stays inside, even if the last packet is cut off |
| `Sysex.GetPacketOf` | aap-midi-device-service/src/main/cpp/cmidi2.h:317-355 | The two words are, byte by byte, the packet its index calls for: type and group, status number and size, stream id, its share of the data, and zeros |
| `Sysex.SplitOnWire` | aap-midi-device-service/src/main/cpp/cmidi2.h:298-355 | A message is as many packets as its bytes need, one for none; status 0 is the only packet, 1 the first, 2 those between, 3 the last; every byte of every packet is given |
| `Sysex.SplitReceived` | aap-midi-device-service/src/main/cpp/cmidi2.h:317-417 | A receiver that checks the statuses and joins the declared data gets exactly the data that was split |
| `Sysex.SplitOrdered` | aap-midi-device-service/src/main/cpp/cmidi2.h:325-342 | Every packet has the right type, group and stream id, and the statuses read IN_ONE_UMP, or START CONTINUE* END |
| `Sysex.GetSysexLength` | aap-midi-device-service/src/main/cpp/cmidi2.h:363-370 | The length is the position of the first 0xF7, less one if the data starts with 0xF0 |
| `Sysex.Sysex7Process` | aap-midi-device-service/src/main/cpp/cmidi2.h:386-394 | The words sent are on the wire the packets of type 3, with 6 bytes each, of the payload cut to its length modulo 256; they come back as the payload exactly when it has at most 255 bytes |
| `Sysex.Sysex8Process` | aap-midi-device-service/src/main/cpp/cmidi2.h:409-417 | The same for SysEx8: type 5, 13 bytes each, and a stream id in every packet |
| `Sysex.Sysex7RoundTrip` | aap-midi-device-service/src/main/cpp/cmidi2.h:376-394 | A longer SysEx7 payload comes back cut to its length modulo 256 |
| `Sysex.Sysex8RoundTrip` | aap-midi-device-service/src/main/cpp/cmidi2.h:402-417 | A longer SysEx8 message comes back cut to its length modulo 256 |
| `Sysex.DirectMatchesSplitter` | aap-midi-device-service/src/main/cpp/cmidi2.h:358-361 | sysex7_direct builds the splitter's packet exactly when its third data byte is a 7-bit byte; otherwise its word is 2^32 too small |
| `MixedDataSet.GetPayloadOf` | aap-midi-device-service/src/main/cpp/cmidi2.h:457-474 | The packet is, byte by byte, type 5 and group, status 9 and id added up, at most 14 bytes of data, and zeros, the byte count being 16 bits wide |
| `MixedDataSet.Process` | aap-midi-device-service/src/main/cpp/cmidi2.h:479-493 | One packet for each range of Sent, in order, holding that range's bytes, wherever those ranges lie in memory |
| `MixedDataSet.SentInNumbers` | aap-midi-device-service/src/main/cpp/cmidi2.h:422-493 | How many payloads are sent for a length, and the chunk, number, offset and size of each, in numbers |
| `MixedDataSet.PayloadCount` | aap-midi-device-service/src/main/cpp/cmidi2.h:428-432 | A chunk of up to 917490 bytes has a payload for every 14 bytes begun; a longer one is reported as -1 |
| `MixedDataSet.ReadsInsideExactly` | aap-midi-device-service/src/main/cpp/cmidi2.h:422-493 | For every length, the ranges read lie within the data exactly when the last chunk is empty or its last payload ends with the data at the latest |
| `MixedDataSet.ReadsInsideLengths` | aap-midi-device-service/src/main/cpp/cmidi2.h:422-493 | That is, for 32-bit lengths: below 14*65535, multiples of 14 and lengths whose last 16 bits are at most their remainder modulo 14; above, lengths of at least 14*65535 for every chunk, and 1376242 |
| `MixedDataSet.ReadingPastTheEnd` | aap-midi-device-service/src/main/cpp/cmidi2.h:457-493 | Fifteen bytes of data are read as twenty-eight; of 65537 bytes not all are sent but nothing past them is read |
| `MixedDataSet.WrittenTilesExactly` | aap-midi-device-service/src/main/cpp/cmidi2.h:422-493 | The ranges the written code sends cover the data with no gap or overlap exactly for lengths below 14*65535 that are below 14 or are multiples of 14 with at least 14 left modulo 65536 |
| `MixedDataSet.TilesCarryAll` | aap-midi-device-service/src/main/cpp/cmidi2.h:479-493 | Ranges that tile the data carry exactly the data |
| `MixedDataSet.IntendedTiles` | aap-midi-device-service/src/main/cpp/cmidi2.h:422-493 | With one chunk size throughout, every length is covered, no payload is empty or above 14 bytes, and no chunk has more than 65535 payloads |
| `MixedDataSet.GetHeader` | aap-midi-device-service/src/main/cpp/cmidi2.h:434-454 | The packet is type 5 and group, status 8 and an id that is not cut to four bits, added up, and the seven 16-bit fields, low byte first |
| `MixedDataSet.MdsIdRoundTrip` | aap-midi-device-service/src/main/cpp/cmidi2.h:434-474 | Status and data set id of headers and payloads read back exactly for ids below 16; a header with id 16 reads as a payload |
| `MixedDataSet.HeaderFieldRoundTrip` | aap-midi-device-service/src/main/cpp/cmidi2.h:690-710 | A header getter returns its field exactly when the field's two bytes are equal |
| `ChannelVoice.Midi1Fields` | aap-midi-device-service/src/main/cpp/cmidi2.h:150-152 | Every field of a MIDI 1.0 packet reads back as masked, with no carry between fields |
| `ChannelVoice.Midi1PitchBendRoundTrip` | aap-midi-device-service/src/main/cpp/cmidi2.h:178-180 | A pitch bend is sent to its group and channel as status 0xE0, low 7 bits first, and reads back exactly when it has 14 bits |
| `ChannelVoice.Midi2Fields16` | aap-midi-device-service/src/main/cpp/cmidi2.h:192-196 | Every field of a MIDI 2.0 packet with two 16-bit data reads back |
| `ChannelVoice.Midi2Fields32` | aap-midi-device-service/src/main/cpp/cmidi2.h:198-202 | Every field of a MIDI 2.0 packet with a 32-bit datum reads back |
| `ChannelVoice.Midi2ProgramRoundTrip` | aap-midi-device-service/src/main/cpp/cmidi2.h:262-265 | Option bit, program and bank of a program change read back |
| `ChannelVoice.JrClockRoundTrip` | aap-midi-device-service/src/main/cpp/cmidi2.h:126-128 | A jitter-reduction clock reads back with its status intact exactly when the time has 16 bits |

## Left out

- StepKeepsInv: sequentially consistent steps only; the two barriers are taken to give that order, and weaker memory models are not modelled.
- OnAudioReady: the performance counters and the clock reads around the process call are not modelled.
- CallPluginProcess: the instrument only; the loop over the other instances is in the lifecycle model, since they have no MIDI ports that are written. The runs read what the plugin is shown by the stored message format; what it does with the message is foreign code.
- TicksWithinCycle: clock and tick arithmetic is over exact integers and rationals, so floating-point rounding and 64-bit overflow of nanosecond sums are not modelled.
- GetPacketOf: takes an index within the message only, as its callers do.
- Process: the payload offset is an exact integer, where the source computes it in `int`, which overflows for lengths above about 2 GiB.
- SequenceForEach: a walk one of whose loads leaves memory altogether is not modelled, since what it reads there is undefined.
- ReadUint32Bytes: takes the intended reading of shifts that C leaves undefined.
- InterleavePorts, PortsReachChannels: more ports than channels are not modelled beyond the fact that they write outside the buffer.
- ProcessMidiInput: an instrument without a port to store in, messages that do not fit the port, and negative times for MIDI 1.0, are not modelled: the source then takes a port from outside its list, writes outside the port, or converts a double that no int can hold.
- GetSysexLength, GetSysex7PacketOf, Sysex7Process: data without a 0xF7 is not modelled, since the source then reads past it without end.
- `zix_ring_free`, `zix_ring_mlock`, `zix_ring_reset` and `terminate`: memory management, or documented as not thread-safe.
- Oboe, binder, shared memory, file descriptors and JNI: foreign calls; opening the stream is a success or a failure given as input, and instance numbers are given by the host.
- The MIDI-CI and shared-memory extensions and default port values set while a plugin is instantiated.
- The floating-point helpers of `cmidi2.h` (jitter-reduction times in seconds, 7.9 pitches) and the unused `get_byte_from` functions.
- The named note, controller and parameter constructors: each is one call of a general constructor that is modelled, so they would only add easy members.
- The Kotlin service and user interface, apart from the length clamp.
