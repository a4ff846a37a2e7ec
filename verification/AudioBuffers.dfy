/** What the audio stream finds in the buffers it hands to its callbacks. */
module AudioBuffers {
  import opened Bits
  import opened RingContents
  import opened Interleave
  import opened Lifecycle
  import opened AudioPipeline
  import opened AudioRuns

  /** The bytes each callback asks for: one float for every frame. */
  function ByteRequests(frameCounts: seq<nat>): (requests: seq<nat>)
    ensures |requests| == |frameCounts|
  {
    seq(|frameCounts|, k requires 0 <= k < |frameCounts| => 4 * frameCounts[k])
  }

  lemma {:induction false} SumOfBytes(frameCounts: seq<nat>)
    ensures Sum(ByteRequests(frameCounts)) == 4 * Sum(frameCounts)
  {
    if frameCounts != [] {
      var before := frameCounts[..|frameCounts| - 1];
      assert ByteRequests(frameCounts)[..|frameCounts| - 1] == ByteRequests(before);
      SumOfBytes(before);
    }
  }

  /** The bytes callback `k` puts at the head of its buffer. */
  function DeliveredIn(frameCounts: seq<nat>, k: nat, capacity: nat, plugin: nat -> seq<byte>): seq<byte>
    requires k < |frameCounts|
  {
    var t := Serve(ByteRequests(frameCounts[..k]), capacity, plugin);
    Callback(t.queue, capacity, 4 * frameCounts[k], plugin(t.processCalls)).delivered
  }

  lemma ServeNextBuffer(frameCounts: seq<nat>, k: nat, capacity: nat, plugin: nat -> seq<byte>)
    requires k < |frameCounts|
    ensures var t, u := Serve(ByteRequests(frameCounts[..k]), capacity, plugin),
                        Serve(ByteRequests(frameCounts[..k + 1]), capacity, plugin);
      var s := Callback(t.queue, capacity, 4 * frameCounts[k], plugin(t.processCalls));
      && u.delivered == t.delivered + DeliveredIn(frameCounts, k, capacity, plugin)
      && u.queue == s.queue && u.processCalls == t.processCalls + if s.processed then 1 else 0
  {
    var requests := ByteRequests(frameCounts[..k + 1]);
    assert requests[..|requests| - 1] == ByteRequests(frameCounts[..k]);
  }

  /** The place for frame `i` and channel `c` has been written, and with the sample that
      frame `first + i` of the plugin's output has on that channel. */
  ghost predicate PlaceRight(written: seq<byte>, blocks: nat -> seq<seq<Sample>>, frames: nat, channels: nat,
                             first: nat, i: nat, c: nat)
    requires channels >= 1 && frames * channels >= 1 && PluginBlocks(blocks, frames, channels)
  {
    var at := 4 * (i * channels + c);
    && at + 4 <= |written|
    && Sample(written[at], written[at + 1], written[at + 2], written[at + 3])
         == ExpectedFloat(blocks, frames, channels, (first + i) * channels + c)
  }

  /** The whole buffer of callback `k` is fresh, and every place in it is right. */
  ghost predicate BufferRight(frameCounts: seq<nat>, k: nat, capacity: nat, plugin: nat -> seq<byte>,
                              blocks: nat -> seq<seq<Sample>>, frames: nat, channels: nat)
    requires channels >= 1 && frames * channels >= 1 && PluginBlocks(blocks, frames, channels)
    requires k < |frameCounts|
  {
    forall i, c :: 0 <= i < frameCounts[k] && 0 <= c < channels ==>
      PlaceRight(DeliveredIn(frameCounts, k, capacity, plugin), blocks, frames, channels,
                 Sum(frameCounts[..k]), i, c)
  }

  lemma RequestsWithin(frameCounts: seq<nat>, k: nat, cells: nat)
    requires AllAtMost(frameCounts, cells) && k <= |frameCounts|
    ensures AllAtMost(ByteRequests(frameCounts[..k]), 4 * cells)
  {
  }

  lemma DeliveredLength(frameCounts: seq<nat>, k: nat, capacity: nat, plugin: nat -> seq<byte>, cells: nat)
    requires cells >= 1 && Blocks(plugin, 4 * cells) && capacity >= 8 * cells - 1
    requires AllAtMost(frameCounts, cells) && k < |frameCounts|
    ensures |DeliveredIn(frameCounts, k, capacity, plugin)| == 4 * frameCounts[k]
    ensures |Serve(ByteRequests(frameCounts[..k]), capacity, plugin).delivered| == 4 * Sum(frameCounts[..k])
  {
    RequestsWithin(frameCounts, k, cells);
    var requests := ByteRequests(frameCounts[..k]);
    RequestsFlow(requests, capacity, plugin, 4 * cells);
    CallbackFlows(Serve(requests, capacity, plugin), plugin, 4 * cells, Sum(requests), capacity, 4 * frameCounts[k]);
    SumOfBytes(frameCounts[..k]);
  }

  lemma DeliveredAfter(frameCounts: seq<nat>, k: nat, capacity: nat, plugin: nat -> seq<byte>, cells: nat, x: nat)
    requires cells >= 1 && Blocks(plugin, 4 * cells) && capacity >= 8 * cells - 1
    requires AllAtMost(frameCounts, cells) && k < |frameCounts| && x < 4 * frameCounts[k]
    ensures |DeliveredIn(frameCounts, k, capacity, plugin)| == 4 * frameCounts[k]
    ensures var t := Serve(ByteRequests(frameCounts[..k + 1]), capacity, plugin);
      var at := 4 * Sum(frameCounts[..k]) + x;
      at < |t.delivered| && t.delivered[at] == DeliveredIn(frameCounts, k, capacity, plugin)[x]
  {
    DeliveredLength(frameCounts, k, capacity, plugin, cells);
    ServeNextBuffer(frameCounts, k, capacity, plugin);
  }

  lemma DeliveredFloat(frameCounts: seq<nat>, k: nat, capacity: nat, plugin: nat -> seq<byte>, cells: nat, i: nat)
    requires cells >= 1 && Blocks(plugin, 4 * cells) && capacity >= 8 * cells - 1
    requires AllAtMost(frameCounts, cells) && k < |frameCounts| && i < frameCounts[k]
    ensures |DeliveredIn(frameCounts, k, capacity, plugin)| == 4 * frameCounts[k]
    ensures var d, t := DeliveredIn(frameCounts, k, capacity, plugin),
                        Serve(ByteRequests(frameCounts[..k + 1]), capacity, plugin);
      var g := Sum(frameCounts[..k]) + i;
      4 * g + 4 <= |t.delivered| && FloatAt(t.delivered, 4 * g) == FloatAt(d, 4 * i)
  {
    DeliveredAfter(frameCounts, k, capacity, plugin, cells, 4 * i);
    DeliveredAfter(frameCounts, k, capacity, plugin, cells, 4 * i + 1);
    DeliveredAfter(frameCounts, k, capacity, plugin, cells, 4 * i + 2);
    DeliveredAfter(frameCounts, k, capacity, plugin, cells, 4 * i + 3);
  }

  lemma FloatSoFar(frameCounts: seq<nat>, capacity: nat, plugin: nat -> seq<byte>,
                   blocks: nat -> seq<seq<Sample>>, frames: nat, channels: nat, cells: nat, k: nat, g: nat)
    requires channels >= 1 && cells == frames * channels >= 1 && PluginBlocks(blocks, frames, channels)
    requires Plays(plugin, blocks, frames, channels)
    requires capacity >= 8 * cells - 1 && AllAtMost(frameCounts, cells) && k <= |frameCounts|
    requires 4 * g + 4 <= |Serve(ByteRequests(frameCounts[..k]), capacity, plugin).delivered|
    ensures FloatAt(Serve(ByteRequests(frameCounts[..k]), capacity, plugin).delivered, 4 * g)
      == ExpectedFloat(blocks, frames, channels, g)
  {
    RequestsWithin(frameCounts, k, cells);
    FloatsInOrder(ByteRequests(frameCounts[..k]), capacity, plugin, blocks, frames, channels, cells, g);
  }

  /** The float a callback puts at its place `i` is float `i` after all those before. */
  lemma FloatOfBuffer(frameCounts: seq<nat>, k: nat, capacity: nat, plugin: nat -> seq<byte>,
                      blocks: nat -> seq<seq<Sample>>, frames: nat, channels: nat, cells: nat, i: nat)
    requires channels >= 1 && cells == frames * channels >= 1 && PluginBlocks(blocks, frames, channels)
    requires Plays(plugin, blocks, frames, channels)
    requires capacity >= 8 * cells - 1 && AllAtMost(frameCounts, cells)
    requires k < |frameCounts| && i < frameCounts[k]
    ensures var d := DeliveredIn(frameCounts, k, capacity, plugin);
      && |d| == 4 * frameCounts[k]
      && FloatAt(d, 4 * i) == ExpectedFloat(blocks, frames, channels, Sum(frameCounts[..k]) + i)
  {
    var first := Sum(frameCounts[..k]);
    DeliveredFloat(frameCounts, k, capacity, plugin, cells, i);
    FloatSoFar(frameCounts, capacity, plugin, blocks, frames, channels, cells, k + 1, first + i);
  }

  lemma MonoPlace(d: seq<byte>, blocks: nat -> seq<seq<Sample>>, frames: nat, first: nat, i: nat)
    requires frames * 1 >= 1 && PluginBlocks(blocks, frames, 1)
    requires 4 * i + 4 <= |d| && FloatAt(d, 4 * i) == ExpectedFloat(blocks, frames, 1, first + i)
    ensures PlaceRight(d, blocks, frames, 1, first, i, 0)
  {
    assert i * 1 + 0 == i && (first + i) * 1 + 0 == first + i;
  }

  lemma MonoBuffer(frameCounts: seq<nat>, k: nat, capacity: nat, plugin: nat -> seq<byte>,
                   blocks: nat -> seq<seq<Sample>>, frames: nat, cells: nat)
    requires cells == frames * 1 >= 1 && PluginBlocks(blocks, frames, 1) && Plays(plugin, blocks, frames, 1)
    requires capacity >= 8 * cells - 1 && AllAtMost(frameCounts, cells) && k < |frameCounts|
    ensures BufferRight(frameCounts, k, capacity, plugin, blocks, frames, 1)
  {
    var d, first := DeliveredIn(frameCounts, k, capacity, plugin), Sum(frameCounts[..k]);
    forall i, c | 0 <= i < frameCounts[k] && 0 <= c < 1
      ensures PlaceRight(d, blocks, frames, 1, first, i, c)
    {
      FloatOfBuffer(frameCounts, k, capacity, plugin, blocks, frames, 1, cells, i);
      MonoPlace(d, blocks, frames, first, i);
    }
  }

  lemma ManyChannelsMiss(frameCounts: seq<nat>, k: nat, capacity: nat, plugin: nat -> seq<byte>,
                         blocks: nat -> seq<seq<Sample>>, frames: nat, channels: nat, cells: nat)
    requires channels >= 2 && cells == frames * channels >= 1
    requires PluginBlocks(blocks, frames, channels) && Plays(plugin, blocks, frames, channels)
    requires capacity >= 8 * cells - 1 && AllAtMost(frameCounts, cells) && k < |frameCounts| && frameCounts[k] > 0
    ensures !BufferRight(frameCounts, k, capacity, plugin, blocks, frames, channels)
  {
    DeliveredLength(frameCounts, k, capacity, plugin, cells);
    LastPlaceMissing(frameCounts[k], channels);
    assert !PlaceRight(DeliveredIn(frameCounts, k, capacity, plugin), blocks, frames, channels,
                       Sum(frameCounts[..k]), frameCounts[k] - 1, channels - 1);
  }

  lemma LastPlaceMissing(f: nat, channels: nat)
    requires f >= 1 && channels >= 2
    ensures (f - 1) * channels + (channels - 1) == f * channels - 1 >= f
  {
    MulMonotone(2, channels, f);
  }

  /** A callback's buffer is wholly fresh and right exactly when the stream has one
      channel, or no frames were asked for: the request leaves out the channel count. */
  lemma BufferRightExactly(frameCounts: seq<nat>, k: nat, capacity: nat, plugin: nat -> seq<byte>,
                           blocks: nat -> seq<seq<Sample>>, frames: nat, channels: nat, cells: nat)
    requires channels >= 1 && cells == frames * channels >= 1
    requires PluginBlocks(blocks, frames, channels) && Plays(plugin, blocks, frames, channels)
    requires capacity >= 8 * cells - 1 && AllAtMost(frameCounts, cells) && k < |frameCounts|
    ensures BufferRight(frameCounts, k, capacity, plugin, blocks, frames, channels)
      <==> (channels == 1 || frameCounts[k] == 0)
  {
    if channels == 1 {
      MonoBuffer(frameCounts, k, capacity, plugin, blocks, frames, cells);
    } else if frameCounts[k] > 0 {
      ManyChannelsMiss(frameCounts, k, capacity, plugin, blocks, frames, channels, cells);
    }
  }

  /** Over whole runs: every buffer is wholly fresh and right exactly when the stream has
      one channel, or no callback asked for anything. */
  lemma RunBuffersRightExactly(frameCounts: seq<nat>, capacity: nat, plugin: nat -> seq<byte>,
                               blocks: nat -> seq<seq<Sample>>, frames: nat, channels: nat, cells: nat)
    requires channels >= 1 && cells == frames * channels >= 1
    requires PluginBlocks(blocks, frames, channels) && Plays(plugin, blocks, frames, channels)
    requires capacity >= 8 * cells - 1 && AllAtMost(frameCounts, cells)
    ensures (forall k :: 0 <= k < |frameCounts| ==>
        BufferRight(frameCounts, k, capacity, plugin, blocks, frames, channels))
      <==> (channels == 1 || forall k :: 0 <= k < |frameCounts| ==> frameCounts[k] == 0)
  {
    forall k | 0 <= k < |frameCounts|
      ensures BufferRight(frameCounts, k, capacity, plugin, blocks, frames, channels)
        <==> (channels == 1 || frameCounts[k] == 0)
    {
      BufferRightExactly(frameCounts, k, capacity, plugin, blocks, frames, channels, cells);
    }
  }

  /** One frame for two channels: the buffer holds eight bytes, and the second channel's
      four keep what they held. */
  lemma StereoFrameHalfFilled(plugin: nat -> seq<byte>, blocks: nat -> seq<seq<Sample>>,
                              capacity: nat, given: seq<byte>)
    requires PluginBlocks(blocks, 1, 2) && Plays(plugin, blocks, 1, 2) && capacity >= 15 && |given| == 8
    ensures !BufferRight([1], 0, capacity, plugin, blocks, 1, 2)
    ensures var d := DeliveredIn([1], 0, capacity, plugin);
      |d| == 4 && Store(given, 0, d)[4..] == given[4..]
  {
    BufferRightExactly([1], 0, capacity, plugin, blocks, 1, 2, 2);
    DeliveredLength([1], 0, capacity, plugin, 2);
  }

  // What the stream finds in its buffers.

  /** Every place of the buffer holds the sample of its frame and channel, the plugin's
      output being taken from frame `first` on. */
  ghost predicate Shows(buffer: seq<byte>, blocks: nat -> seq<seq<Sample>>, frames: nat, channels: nat,
                        first: nat, count: nat)
    requires channels >= 1 && frames * channels >= 1 && PluginBlocks(blocks, frames, channels)
  {
    forall i, c :: 0 <= i < count && 0 <= c < channels ==>
      PlaceRight(buffer, blocks, frames, channels, first, i, c)
  }

  /** The buffer holds what was delivered, and behind it what it held before. */
  ghost predicate BufferFilled(buffer: seq<byte>, given: seq<byte>, delivered: seq<byte>) {
    |delivered| <= |given| && buffer == Store(given, 0, delivered)
  }

  lemma PlaceKept(written: seq<byte>, given: seq<byte>, buffer: seq<byte>, blocks: nat -> seq<seq<Sample>>,
                  frames: nat, channels: nat, first: nat, i: nat, c: nat)
    requires channels >= 1 && frames * channels >= 1 && PluginBlocks(blocks, frames, channels)
    requires BufferFilled(buffer, given, written)
    requires PlaceRight(written, blocks, frames, channels, first, i, c)
    ensures PlaceRight(buffer, blocks, frames, channels, first, i, c)
  {
    assert buffer[..|written|] == written;
    var at := 4 * (i * channels + c);
    assert FloatAt(buffer, at) == FloatAt(buffer[..|written|], at);
  }

  /** With one channel, or for no frames, the buffer comes out right whatever it held. */
  lemma RightBufferShows(frameCounts: seq<nat>, k: nat, capacity: nat, plugin: nat -> seq<byte>,
                         blocks: nat -> seq<seq<Sample>>, frames: nat, channels: nat, cells: nat,
                         given: seq<byte>, buffer: seq<byte>)
    requires channels >= 1 && cells == frames * channels >= 1
    requires PluginBlocks(blocks, frames, channels) && Plays(plugin, blocks, frames, channels)
    requires capacity >= 8 * cells - 1 && AllAtMost(frameCounts, cells) && k < |frameCounts|
    requires BufferFilled(buffer, given, DeliveredIn(frameCounts, k, capacity, plugin))
    requires channels == 1 || frameCounts[k] == 0
    ensures Shows(buffer, blocks, frames, channels, Sum(frameCounts[..k]), frameCounts[k])
  {
    BufferRightExactly(frameCounts, k, capacity, plugin, blocks, frames, channels, cells);
    var d, first := DeliveredIn(frameCounts, k, capacity, plugin), Sum(frameCounts[..k]);
    forall i, c | 0 <= i < frameCounts[k] && 0 <= c < channels
      ensures PlaceRight(buffer, blocks, frames, channels, first, i, c)
    {
      assert PlaceRight(d, blocks, frames, channels, first, i, c);
      PlaceKept(d, given, buffer, blocks, frames, channels, first, i, c);
    }
  }

  /** With more channels, all behind the first `frameCounts[k]` floats is what it was. */
  lemma WrongBufferIsStale(frameCounts: seq<nat>, k: nat, capacity: nat, plugin: nat -> seq<byte>,
                           channels: nat, cells: nat, given: seq<byte>, buffer: seq<byte>)
    requires cells >= 1 && Blocks(plugin, 4 * cells)
    requires capacity >= 8 * cells - 1 && AllAtMost(frameCounts, cells) && k < |frameCounts|
    requires |given| == 4 * (frameCounts[k] * channels)
    requires BufferFilled(buffer, given, DeliveredIn(frameCounts, k, capacity, plugin))
    requires channels >= 2 && frameCounts[k] > 0
    ensures 4 * frameCounts[k] < |buffer| == |given| && buffer[4 * frameCounts[k]..] == given[4 * frameCounts[k]..]
  {
    DeliveredLength(frameCounts, k, capacity, plugin, cells);
    MulMonotone(2, channels, frameCounts[k]);
  }

  /** What a callback leaves in its buffer: everything right, whatever it held, with one
      channel or for no frames; and otherwise old bytes behind the first floats. */
  ghost predicate Outcome(buffer: seq<byte>, given: seq<byte>, blocks: nat -> seq<seq<Sample>>,
                          frames: nat, channels: nat, first: nat, count: nat)
    requires channels >= 1 && frames * channels >= 1 && PluginBlocks(blocks, frames, channels)
  {
    if channels == 1 || count == 0 then Shows(buffer, blocks, frames, channels, first, count)
    else 4 * count < |buffer| == |given| && buffer[4 * count..] == given[4 * count..]
  }

  lemma BufferOutcome(frameCounts: seq<nat>, k: nat, capacity: nat, plugin: nat -> seq<byte>,
                      blocks: nat -> seq<seq<Sample>>, frames: nat, channels: nat, cells: nat,
                      given: seq<byte>, buffer: seq<byte>)
    requires channels >= 1 && cells == frames * channels >= 1
    requires PluginBlocks(blocks, frames, channels) && Plays(plugin, blocks, frames, channels)
    requires capacity >= 8 * cells - 1 && AllAtMost(frameCounts, cells) && k < |frameCounts|
    requires |given| == 4 * (frameCounts[k] * channels)
    requires BufferFilled(buffer, given, DeliveredIn(frameCounts, k, capacity, plugin))
    ensures Outcome(buffer, given, blocks, frames, channels, Sum(frameCounts[..k]), frameCounts[k])
  {
    if channels == 1 || frameCounts[k] == 0 {
      RightBufferShows(frameCounts, k, capacity, plugin, blocks, frames, channels, cells, given, buffer);
    } else {
      WrongBufferIsStale(frameCounts, k, capacity, plugin, channels, cells, given, buffer);
    }
  }

  /** Some old contents differ from what the last place should show. */
  lemma StaleContents(count: nat, channels: nat, blocks: nat -> seq<seq<Sample>>, frames: nat, first: nat)
    returns (given: seq<byte>)
    requires channels >= 2 && frames * channels >= 1 && PluginBlocks(blocks, frames, channels) && count >= 1
    ensures |given| == 4 * (count * channels)
    ensures forall buffer: seq<byte> :: Outcome(buffer, given, blocks, frames, channels, first, count) ==>
      !Shows(buffer, blocks, frames, channels, first, count)
  {
    LastPlaceMissing(count, channels);
    var at := (count - 1) * channels + (channels - 1);
    var right := ExpectedFloat(blocks, frames, channels, (first + (count - 1)) * channels + (channels - 1)).b0;
    var wrong: byte := if right == 0 then 1 else 0;
    given := seq(4 * (count * channels), _ => wrong);
    forall buffer: seq<byte> | Outcome(buffer, given, blocks, frames, channels, first, count)
      ensures !PlaceRight(buffer, blocks, frames, channels, first, count - 1, channels - 1)
    {
      if 4 * at < |buffer| {
        assert buffer[4 * at] == buffer[4 * count..][4 * at - 4 * count] == given[4 * at];
      }
    }
  }

  /** The buffer of callback `k` comes out right whatever it held before exactly when the
      stream has one channel, or no frames were asked for. */
  lemma ShowsExactly(frameCounts: seq<nat>, k: nat, capacity: nat, plugin: nat -> seq<byte>,
                     blocks: nat -> seq<seq<Sample>>, frames: nat, channels: nat, cells: nat)
    requires channels >= 1 && cells == frames * channels >= 1
    requires PluginBlocks(blocks, frames, channels) && Plays(plugin, blocks, frames, channels)
    requires capacity >= 8 * cells - 1 && AllAtMost(frameCounts, cells) && k < |frameCounts|
    ensures (forall given: seq<byte>, buffer: seq<byte> ::
        |given| == 4 * (frameCounts[k] * channels)
        && BufferFilled(buffer, given, DeliveredIn(frameCounts, k, capacity, plugin)) ==>
        Shows(buffer, blocks, frames, channels, Sum(frameCounts[..k]), frameCounts[k]))
      <==> (channels == 1 || frameCounts[k] == 0)
  {
    var d, first := DeliveredIn(frameCounts, k, capacity, plugin), Sum(frameCounts[..k]);
    forall given: seq<byte>, buffer: seq<byte>
      | |given| == 4 * (frameCounts[k] * channels) && BufferFilled(buffer, given, d)
      ensures Outcome(buffer, given, blocks, frames, channels, first, frameCounts[k])
    {
      BufferOutcome(frameCounts, k, capacity, plugin, blocks, frames, channels, cells, given, buffer);
    }
    if channels >= 2 && frameCounts[k] > 0 {
      var given := StaleContents(frameCounts[k], channels, blocks, frames, first);
      DeliveredLength(frameCounts, k, capacity, plugin, cells);
      MulMonotone(1, channels, frameCounts[k]);
      assert BufferFilled(Store(given, 0, d), given, d);
    }
  }

  // The stream's side of the callbacks.

  /** A callback for `n` bytes took the queue to `queue'`, and ran the plugin or not. */
  ghost predicate CalledBack(queue: seq<byte>, capacity: nat, n: nat, bytes: seq<byte>, given: seq<byte>,
                             queue': seq<byte>, processed: bool, buffer: seq<byte>) {
    var served := Callback(queue, capacity, n, bytes);
    && queue' == served.queue && processed == served.processed
    && BufferFilled(buffer, given, served.delivered)
  }

  /** `activate` has made the processor play on as many ports as the stream has channels. */
  ghost predicate Playing(p: AudioProcessor, capacity: nat)
    reads p, p.ring
  {
    p.Valid() && p.state == Active && |p.outPorts| == p.channelCount && p.ring.size == capacity + 1
  }

  /** One callback on a buffer that holds `given`. */
  method RunCallback(p: AudioProcessor, ghost capacity: nat, numFrames: nat, block: seq<seq<Sample>>,
                     ghost bytes: seq<byte>, given: seq<byte>)
    returns (buffer: seq<byte>, processed: bool)
    requires Playing(p, capacity)
    requires |block| == |p.outPorts| && BytesOf(bytes, block, p.frameSize)
    requires |given| == p.BufferBytes(numFrames) && 4 * numFrames < U32_MODULUS
    modifies p.ring, p.ring.buf, p.interleaveBuffer, p.outPorts
    ensures Playing(p, capacity)
    ensures CalledBack(old(p.ring.Contents()), capacity, 4 * numFrames, bytes, given,
                       p.ring.Contents(), processed, buffer)
  {
    p.MeetsRunConditions(block);
    p.BufferHoldsRequest(numFrames);
    var audioData := new byte[|given|](i requires 0 <= i < |given| => given[i]);
    assert audioData[..] == given;
    var space := p.ring.GetReadSpace();
    p.OnAudioReady(audioData, numFrames, block);
    buffer, processed := audioData[..], space < 4 * numFrames;
  }

  function BlockOf(blocks: nat -> seq<seq<Sample>>, k: nat): seq<seq<Sample>> {
    blocks(k)
  }

  function BytesFrom(plugin: nat -> seq<byte>, k: nat): seq<byte> {
    plugin(k)
  }

  lemma SuppliedBlock(plugin: nat -> seq<byte>, blocks: nat -> seq<seq<Sample>>, frames: nat, channels: nat, k: nat)
    requires Supplies(plugin, blocks, frames, channels)
    ensures |BlockOf(blocks, k)| == channels && BytesOf(BytesFrom(plugin, k), BlockOf(blocks, k), frames)
  {
  }

  /** After as many callbacks as there are `buffers`: the queue and the number of plugin
      runs are those of `Serve`, and each buffer holds what was delivered into it. */
  ghost predicate Streamed(frameCounts: seq<nat>, given: seq<seq<byte>>, capacity: nat, plugin: nat -> seq<byte>,
                           queue: seq<byte>, calls: nat, buffers: seq<seq<byte>>)
  {
    && |buffers| <= |given| == |frameCounts|
    && queue == Serve(ByteRequests(frameCounts[..|buffers|]), capacity, plugin).queue
    && calls == Serve(ByteRequests(frameCounts[..|buffers|]), capacity, plugin).processCalls
    && Filled(frameCounts, given, capacity, plugin, buffers)
  }

  ghost predicate Filled(frameCounts: seq<nat>, given: seq<seq<byte>>, capacity: nat, plugin: nat -> seq<byte>,
                         buffers: seq<seq<byte>>)
    requires |buffers| <= |given| == |frameCounts|
  {
    forall k :: 0 <= k < |buffers| ==>
      BufferFilled(buffers[k], given[k], DeliveredIn(frameCounts, k, capacity, plugin))
  }

  lemma FilledNext(frameCounts: seq<nat>, given: seq<seq<byte>>, capacity: nat, plugin: nat -> seq<byte>,
                   buffers: seq<seq<byte>>, buffer: seq<byte>)
    requires |buffers| < |given| == |frameCounts| && Filled(frameCounts, given, capacity, plugin, buffers)
    requires BufferFilled(buffer, given[|buffers|], DeliveredIn(frameCounts, |buffers|, capacity, plugin))
    ensures Filled(frameCounts, given, capacity, plugin, buffers + [buffer])
  {
  }

  lemma StreamedNext(frameCounts: seq<nat>, given: seq<seq<byte>>, capacity: nat, plugin: nat -> seq<byte>,
                     queue: seq<byte>, calls: nat, buffers: seq<seq<byte>>,
                     queue': seq<byte>, processed: bool, buffer: seq<byte>)
    requires Streamed(frameCounts, given, capacity, plugin, queue, calls, buffers) && |buffers| < |given|
    requires CalledBack(queue, capacity, 4 * frameCounts[|buffers|], BytesFrom(plugin, calls), given[|buffers|],
                        queue', processed, buffer)
    ensures Streamed(frameCounts, given, capacity, plugin, queue',
                     calls + if processed then 1 else 0, buffers + [buffer])
  {
    ServeNextBuffer(frameCounts, |buffers|, capacity, plugin);
    FilledNext(frameCounts, given, capacity, plugin, buffers, buffer);
    assert |buffers + [buffer]| == |buffers| + 1;
  }

  /** The room a stream of `channels` channels hands over for each callback. */
  predicate HandedOver(given: seq<seq<byte>>, frameCounts: seq<nat>, channels: nat) {
    && |given| == |frameCounts|
    && forall k :: 0 <= k < |given| ==> HasRoom(given[k], frameCounts[k], channels)
  }

  predicate HasRoom(buffer: seq<byte>, count: nat, channels: nat) {
    |buffer| == 4 * (count * channels) && 4 * count < U32_MODULUS
  }

  /** The next callback, on the next buffer. */
  method NextCallback(p: AudioProcessor, ghost capacity: nat, frameCounts: seq<nat>, blocks: nat -> seq<seq<Sample>>,
                      ghost plugin: nat -> seq<byte>, given: seq<seq<byte>>, calls: nat, buffers: seq<seq<byte>>)
    returns (calls': nat, buffers': seq<seq<byte>>)
    requires Playing(p, capacity) && Supplies(plugin, blocks, p.frameSize, p.channelCount)
    requires HandedOver(given, frameCounts, p.channelCount) && |buffers| < |given|
    requires Streamed(frameCounts, given, capacity, plugin, p.ring.Contents(), calls, buffers)
    modifies p.ring, p.ring.buf, p.interleaveBuffer, p.outPorts
    ensures Playing(p, capacity) && |buffers'| == |buffers| + 1
    ensures Streamed(frameCounts, given, capacity, plugin, p.ring.Contents(), calls', buffers')
  {
    var k := |buffers|;
    ghost var queue := p.ring.Contents();
    SuppliedBlock(plugin, blocks, p.frameSize, p.channelCount, calls);
    assert HasRoom(given[k], frameCounts[k], p.channelCount);
    var buffer, processed :=
      RunCallback(p, capacity, frameCounts[k], BlockOf(blocks, calls), BytesFrom(plugin, calls), given[k]);
    StreamedNext(frameCounts, given, capacity, plugin, queue, calls, buffers, p.ring.Contents(), processed, buffer);
    calls', buffers' := calls + if processed then 1 else 0, buffers + [buffer];
  }

  /** The stream hands over buffers that hold `given`, for as many frames as it likes each
      time, and finds `buffers` afterwards. The plugin produces `blocks(k)`, as bytes
      `plugin(k)`, when it runs for the `k`th time. */
  method RunStream(p: AudioProcessor, ghost capacity: nat, frameCounts: seq<nat>, blocks: nat -> seq<seq<Sample>>,
                   ghost plugin: nat -> seq<byte>, given: seq<seq<byte>>)
    returns (calls: nat, buffers: seq<seq<byte>>)
    requires Playing(p, capacity) && Supplies(plugin, blocks, p.frameSize, p.channelCount)
    requires HandedOver(given, frameCounts, p.channelCount) && p.ring.Contents() == []
    modifies p.ring, p.ring.buf, p.interleaveBuffer, p.outPorts
    ensures Playing(p, capacity) && |buffers| == |given|
    ensures Streamed(frameCounts, given, capacity, plugin, p.ring.Contents(), calls, buffers)
  {
    calls, buffers := 0, [];
    assert frameCounts[..0] == [];
    while |buffers| < |given|
      invariant Playing(p, capacity) && |buffers| <= |given|
      invariant Streamed(frameCounts, given, capacity, plugin, p.ring.Contents(), calls, buffers)
    {
      calls, buffers := NextCallback(p, capacity, frameCounts, blocks, plugin, given, calls, buffers);
    }
  }

  /** All the buffers of a run are as `Outcome` says. */
  lemma StreamOutcome(frameCounts: seq<nat>, given: seq<seq<byte>>, capacity: nat, plugin: nat -> seq<byte>,
                      blocks: nat -> seq<seq<Sample>>, frames: nat, channels: nat,
                      queue: seq<byte>, calls: nat, buffers: seq<seq<byte>>, k: nat)
    requires channels >= 1 && frames * channels >= 1 && Supplies(plugin, blocks, frames, channels)
    requires capacity >= 8 * (frames * channels) - 1 && AllAtMost(frameCounts, frames * channels)
    requires HandedOver(given, frameCounts, channels) && k < |buffers|
    requires Streamed(frameCounts, given, capacity, plugin, queue, calls, buffers)
    ensures PluginBlocks(blocks, frames, channels)
    ensures Outcome(buffers[k], given[k], blocks, frames, channels, Sum(frameCounts[..k]), frameCounts[k])
  {
    PortsPlay(plugin, blocks, frames, channels);
    assert HasRoom(given[k], frameCounts[k], channels);
    BufferOutcome(frameCounts, k, capacity, plugin, blocks, frames, channels, frames * channels, given[k], buffers[k]);
  }

  ghost predicate Outcomes(buffers: seq<seq<byte>>, given: seq<seq<byte>>, blocks: nat -> seq<seq<Sample>>,
                           frames: nat, channels: nat, frameCounts: seq<nat>)
    requires channels >= 1 && frames * channels >= 1 && PluginBlocks(blocks, frames, channels)
  {
    |buffers| == |given| == |frameCounts| && forall k :: 0 <= k < |buffers| ==>
      Outcome(buffers[k], given[k], blocks, frames, channels, Sum(frameCounts[..k]), frameCounts[k])
  }

  lemma StreamOutcomes(frameCounts: seq<nat>, given: seq<seq<byte>>, capacity: nat, plugin: nat -> seq<byte>,
                       blocks: nat -> seq<seq<Sample>>, frames: nat, channels: nat,
                       queue: seq<byte>, calls: nat, buffers: seq<seq<byte>>)
    requires channels >= 1 && frames * channels >= 1 && Supplies(plugin, blocks, frames, channels)
    requires capacity >= 8 * (frames * channels) - 1 && AllAtMost(frameCounts, frames * channels)
    requires HandedOver(given, frameCounts, channels) && |buffers| == |given|
    requires Streamed(frameCounts, given, capacity, plugin, queue, calls, buffers)
    ensures PluginBlocks(blocks, frames, channels) && Outcomes(buffers, given, blocks, frames, channels, frameCounts)
  {
    PortsPlay(plugin, blocks, frames, channels);
    forall k | 0 <= k < |buffers|
      ensures Outcome(buffers[k], given[k], blocks, frames, channels, Sum(frameCounts[..k]), frameCounts[k])
    {
      StreamOutcome(frameCounts, given, capacity, plugin, blocks, frames, channels, queue, calls, buffers, k);
    }
  }

  /** Separate output ports of one block each. */
  ghost predicate ArePorts(ports: seq<array<Sample>>, frames: nat) {
    && (forall p :: 0 <= p < |ports| ==> ports[p].Length == frames)
    && forall p, q :: 0 <= p < q < |ports| ==> ports[p] != ports[q]
  }

  /** `initialize` and `activate`, with a port for every channel. */
  method Start(frames: nat, channels: nat, ports: seq<array<Sample>>) returns (p: AudioProcessor, ghost capacity: nat)
    requires 1 <= frames * channels <= 0x1000_0000 && |ports| == channels
    requires ArePorts(ports, frames)
    ensures fresh(p) && fresh(p.ring) && fresh(p.ring.buf) && fresh(p.interleaveBuffer) && p.outPorts == ports
    ensures Playing(p, capacity) && p.ring.Contents() == []
    ensures p.frameSize == frames && p.channelCount == channels && capacity >= 8 * (frames * channels) - 1
  {
    p := new AudioProcessor(frames, channels, ports);
    p.Activate(true);
    assert p.state == After(INITIAL, Call.Activate(true)).state;
    capacity := p.ring.size - 1;
  }

  /** A run of callbacks that ask for at most a block each, on a processor just started. */
  method PlayRun(p: AudioProcessor, ghost capacity: nat, frameCounts: seq<nat>, blocks: nat -> seq<seq<Sample>>,
                 ghost plugin: nat -> seq<byte>, given: seq<seq<byte>>)
    returns (buffers: seq<seq<byte>>)
    requires Playing(p, capacity) && p.channelCount >= 1 && p.ring.Contents() == []
    requires p.frameSize * p.channelCount >= 1 && capacity >= 8 * (p.frameSize * p.channelCount) - 1
    requires Supplies(plugin, blocks, p.frameSize, p.channelCount)
    requires AllAtMost(frameCounts, p.frameSize * p.channelCount) && HandedOver(given, frameCounts, p.channelCount)
    modifies p.ring, p.ring.buf, p.interleaveBuffer, p.outPorts
    ensures PluginBlocks(blocks, p.frameSize, p.channelCount)
    ensures Outcomes(buffers, given, blocks, p.frameSize, p.channelCount, frameCounts)
  {
    var calls;
    calls, buffers := RunStream(p, capacity, frameCounts, blocks, plugin, given);
    StreamOutcomes(frameCounts, given, capacity, plugin, blocks, p.frameSize, p.channelCount,
                   p.ring.Contents(), calls, buffers);
  }

  /** From `initialize` through `activate` to the end of a run of callbacks that ask for at
      most a block each: what the stream finds in its buffers. */
  method PlayFromStart(frames: nat, channels: nat, ports: seq<array<Sample>>, frameCounts: seq<nat>,
                       blocks: nat -> seq<seq<Sample>>, ghost plugin: nat -> seq<byte>, given: seq<seq<byte>>)
    returns (buffers: seq<seq<byte>>)
    requires 1 <= frames * channels <= 0x1000_0000 && |ports| == channels
    requires ArePorts(ports, frames)
    requires Supplies(plugin, blocks, frames, channels) && AllAtMost(frameCounts, frames * channels)
    requires HandedOver(given, frameCounts, channels)
    modifies ports
    ensures channels >= 1 && PluginBlocks(blocks, frames, channels)
    ensures Outcomes(buffers, given, blocks, frames, channels, frameCounts)
  {
    var p, capacity := Start(frames, channels, ports);
    buffers := PlayRun(p, capacity, frameCounts, blocks, plugin, given);
  }
}
