/** Whole runs of audio callbacks. `AudioProcessor.OnAudioReady` takes the ring
    through `Callback`; here `Serve` repeats it for any requests and any plugin. */
module AudioRuns {
  import opened Bits
  import opened RingArithmetic
  import opened Interleave
  import opened AudioPipeline

  datatype Totals = Totals(queue: seq<byte>, delivered: seq<byte>, processCalls: nat, refusals: nat, shorts: nat)

  /** One more callback, for `n` bytes; `plugin(k)` is the block of the `k`th plugin run. */
  function Next(t: Totals, capacity: nat, n: nat, plugin: nat -> seq<byte>): Totals {
    var s := Callback(t.queue, capacity, n, plugin(t.processCalls));
    Totals(s.queue, t.delivered + s.delivered,
           t.processCalls + (if s.processed then 1 else 0),
           t.refusals + (if s.refused then 1 else 0),
           t.shorts + (if s.short then 1 else 0))
  }

  /** Serving the requests in order, from an empty ring. */
  function Serve(requests: seq<nat>, capacity: nat, plugin: nat -> seq<byte>): Totals {
    if requests == [] then Totals([], [], 0, 0, 0)
    else
      Next(Serve(requests[..|requests| - 1], capacity, plugin), capacity, requests[|requests| - 1], plugin)
  }

  function Sum(requests: seq<nat>): nat {
    if requests == [] then 0 else Sum(requests[..|requests| - 1]) + requests[|requests| - 1]
  }

  /** The first `k` blocks, one after the other. */
  function Stream(plugin: nat -> seq<byte>, k: nat): seq<byte> {
    if k == 0 then [] else Stream(plugin, k - 1) + plugin(k - 1)
  }

  ghost predicate Blocks(plugin: nat -> seq<byte>, size: nat) {
    forall k: nat :: |plugin(k)| == size
  }

  predicate AllAtMost(requests: seq<nat>, bound: nat) {
    forall i :: 0 <= i < |requests| ==> requests[i] <= bound
  }

  predicate AllAbove(requests: seq<nat>, bound: nat) {
    forall i :: 0 <= i < |requests| ==> requests[i] > bound
  }

  /** Requests of at most one block never starve: nothing is refused or cut short, less
      than a block stays behind, and what was delivered is the plugin's blocks in order. */
  ghost predicate Flowing(t: Totals, plugin: nat -> seq<byte>, size: nat, requested: nat) {
    && t.refusals == 0 && t.shorts == 0
    && |t.queue| < size
    && |t.delivered| == requested
    && t.delivered + t.queue == Stream(plugin, t.processCalls)
  }

  lemma CallbackFlows(t: Totals, plugin: nat -> seq<byte>, size: nat, requested: nat, capacity: nat, n: nat)
    requires Flowing(t, plugin, size, requested) && Blocks(plugin, size)
    requires capacity >= 2 * size - 1 && n <= size
    ensures var s := Callback(t.queue, capacity, n, plugin(t.processCalls));
      && !s.refused && !s.short && |s.delivered| == n && |s.queue| < size
      && t.delivered + s.delivered + s.queue ==
           Stream(plugin, t.processCalls + if s.processed then 1 else 0)
  {
    var s := Callback(t.queue, capacity, n, plugin(t.processCalls));
    var b := plugin(t.processCalls);
    assert |b| == size;
    var filled := if s.processed then t.queue + b else t.queue;
    assert s.delivered + s.queue == filled;
    assert t.delivered + s.delivered + s.queue == t.delivered + filled;
    assert t.delivered + (t.queue + b) == (t.delivered + t.queue) + b;
  }

  lemma {:induction false} RequestsFlow(requests: seq<nat>, capacity: nat, plugin: nat -> seq<byte>, size: nat)
    requires size >= 1 && Blocks(plugin, size) && capacity >= 2 * size - 1
    requires AllAtMost(requests, size)
    ensures Flowing(Serve(requests, capacity, plugin), plugin, size, Sum(requests))
  {
    if requests != [] {
      var before := requests[..|requests| - 1];
      RequestsFlow(before, capacity, plugin, size);
      CallbackFlows(Serve(before, capacity, plugin), plugin, size, Sum(before), capacity, requests[|requests| - 1]);
    }
  }

  function CeilDiv(a: nat, b: nat): nat
    requires b >= 1
  {
    (a + b - 1) / b
  }

  lemma {:induction false} CeilFromRemainder(calls: nat, size: nat, total: nat, rest: nat)
    requires calls * size == total + rest && rest < size
    ensures CeilDiv(total, size) == calls
  {
    var x := total + size - 1;
    assert x == calls * size + (size - 1 - rest);
    ModOf(calls, size - 1 - rest, size);
    assert x == (x / size) * size + x % size;
    CancelFactor(x / size, calls, size);
  }

  /** Over any run of requests of at most one block the plugin runs exactly as often
      as the bytes delivered need. */
  lemma ProcessCallsAreMinimal(requests: seq<nat>, capacity: nat, plugin: nat -> seq<byte>, size: nat)
    requires size >= 1 && Blocks(plugin, size) && capacity >= 2 * size - 1
    requires AllAtMost(requests, size)
    ensures var t := Serve(requests, capacity, plugin);
      t.processCalls == CeilDiv(|t.delivered|, size)
  {
    RequestsFlow(requests, capacity, plugin, size);
    var t := Serve(requests, capacity, plugin);
    StreamLength(plugin, size, t.processCalls);
    assert |t.delivered + t.queue| == t.processCalls * size;
    CeilFromRemainder(t.processCalls, size, |t.delivered|, |t.queue|);
  }

  // End to end: which sample each delivered float is.

  lemma {:induction false} StreamAt(plugin: nat -> seq<byte>, size: nat, k: nat, x: nat)
    requires Blocks(plugin, size) && size >= 1 && x < k * size
    ensures |Stream(plugin, k)| == k * size
    ensures Stream(plugin, k)[x] == plugin(x / size)[x % size]
    decreases k
  {
    StreamLength(plugin, size, k - 1);
    assert k * size == (k - 1) * size + size;
    if x < (k - 1) * size {
      StreamAt(plugin, size, k - 1, x);
    } else {
      var r := x - (k - 1) * size;
      CellRoundTrip(k - 1, r, size);
    }
  }

  lemma {:induction false} StreamLength(plugin: nat -> seq<byte>, size: nat, k: nat)
    requires Blocks(plugin, size)
    ensures |Stream(plugin, k)| == k * size
  {
    if k > 0 {
      StreamLength(plugin, size, k - 1);
      assert k * size == (k - 1) * size + size;
    }
  }

  lemma StreamAtAny(plugin: nat -> seq<byte>, size: nat, k: nat, x: nat)
    requires Blocks(plugin, size) && size >= 1 && x < |Stream(plugin, k)|
    ensures x % size < |plugin(x / size)|
    ensures Stream(plugin, k)[x] == plugin(x / size)[x % size]
  {
    StreamLength(plugin, size, k);
    StreamAt(plugin, size, k, x);
  }

  ghost predicate PluginBlocks(blocks: nat -> seq<seq<Sample>>, frames: nat, channels: nat) {
    forall k: nat :: IsBlock(blocks(k), frames) && |blocks(k)| == channels
  }

  /** `bytes` is what one plugin run that produces `block` puts into the ring. */
  ghost predicate BytesOf(bytes: seq<byte>, block: seq<seq<Sample>>, frames: nat) {
    IsBlock(block, frames) && bytes == Bytes(Interleaved(block, frames))
  }

  /** Every plugin run puts its block into the ring, a port for each channel. */
  ghost predicate Supplies(plugin: nat -> seq<byte>, blocks: nat -> seq<seq<Sample>>, frames: nat, channels: nat) {
    forall k: nat :: |blocks(k)| == channels && BytesOf(plugin(k), blocks(k), frames)
  }

  lemma {:induction false} ByteIndex(g: nat, b: nat, cells: nat)
    requires b < 4 && cells >= 1
    ensures (4 * g + b) / (4 * cells) == g / cells
    ensures (4 * g + b) % (4 * cells) == 4 * (g % cells) + b
  {
    var q, r := g / cells, g % cells;
    assert g == q * cells + r;
    assert 4 * g + b == q * (4 * cells) + (4 * r + b);
    CellRoundTrip(q, 4 * r + b, 4 * cells);
  }

  lemma {:induction false} PortOfFloat(g: nat, frames: nat, channels: nat)
    requires channels >= 1 && frames * channels >= 1
    ensures (g % (frames * channels)) % channels == g % channels
  {
    var cells := frames * channels;
    var q, r := g / cells, g % cells;
    var i, p := r / channels, r % channels;
    assert g == q * cells + r && r == i * channels + p;
    assert q * cells == (q * frames) * channels;
    assert g == (q * frames + i) * channels + p;
    ModOf(q * frames + i, p, channels);
  }

  /** Frame `(g mod F*C) / C` of port `g mod C` of plugin run `g / (F*C)`. */
  ghost function ExpectedFloat(blocks: nat -> seq<seq<Sample>>, frames: nat, channels: nat, g: nat): Sample
    requires channels >= 1 && frames * channels >= 1 && PluginBlocks(blocks, frames, channels)
  {
    var r := g % (frames * channels);
    FrameInRange(r, channels, frames);
    blocks(g / (frames * channels))[g % channels][r / channels]
  }

  lemma {:induction false} ByteOfBlock(block: seq<seq<Sample>>, frames: nat, channels: nat, r: nat, b: nat)
    requires IsBlock(block, frames) && |block| == channels && channels >= 1
    requires r < frames * channels && b < 4
    ensures r / channels < frames
    ensures Bytes(Interleaved(block, frames))[4 * r + b] == SampleByte(block[r % channels][r / channels], b)
  {
    FrameInRange(r, channels, frames);
    assert (4 * r + b) / 4 == r && (4 * r + b) % 4 == b;
    assert Interleaved(block, frames)[r] == InterleavedAt(block, frames, r);
  }

  /** Byte `b` of float `g` of the plugin's whole output is that of `ExpectedFloat`. */
  ghost predicate PlaysFloat(plugin: nat -> seq<byte>, blocks: nat -> seq<seq<Sample>>, frames: nat, channels: nat,
                             g: nat, b: nat)
    requires channels >= 1 && frames * channels >= 1 && PluginBlocks(blocks, frames, channels)
  {
    var cells := frames * channels;
    var at := 4 * (g % cells) + b;
    at < |plugin(g / cells)| && plugin(g / cells)[at] == SampleByte(ExpectedFloat(blocks, frames, channels, g), b)
  }

  /** `plugin` is what enters the ring when the plugin produces `blocks`. */
  ghost predicate Plays(plugin: nat -> seq<byte>, blocks: nat -> seq<seq<Sample>>, frames: nat, channels: nat)
    requires channels >= 1 && frames * channels >= 1 && PluginBlocks(blocks, frames, channels)
  {
    && Blocks(plugin, 4 * (frames * channels))
    && forall g: nat, b: nat :: b < 4 ==> PlaysFloat(plugin, blocks, frames, channels, g, b)
  }

  lemma BlockPlaysFloat(plugin: nat -> seq<byte>, blocks: nat -> seq<seq<Sample>>, frames: nat, channels: nat,
                        g: nat, b: nat)
    requires channels >= 1 && frames * channels >= 1 && PluginBlocks(blocks, frames, channels) && b < 4
    requires var k: nat := g / (frames * channels);
      BytesOf(plugin(k), blocks(k), frames)
    ensures PlaysFloat(plugin, blocks, frames, channels, g, b)
  {
    var cells := frames * channels;
    var k: nat := g / cells;
    assert IsBlock(blocks(k), frames) && |blocks(k)| == channels;
    ByteOfBlock(blocks(k), frames, channels, g % cells, b);
    PortOfFloat(g, frames, channels);
  }

  /** With as many output ports as channels, the ring is fed the floats in playing order. */
  lemma PortsPlay(plugin: nat -> seq<byte>, blocks: nat -> seq<seq<Sample>>, frames: nat, channels: nat)
    requires channels >= 1 && frames * channels >= 1
    requires Supplies(plugin, blocks, frames, channels)
    ensures PluginBlocks(blocks, frames, channels) && Plays(plugin, blocks, frames, channels)
  {
    forall g: nat, b: nat | b < 4
      ensures PlaysFloat(plugin, blocks, frames, channels, g, b)
    {
      BlockPlaysFloat(plugin, blocks, frames, channels, g, b);
    }
  }

  lemma FlowedByte(t: Totals, plugin: nat -> seq<byte>, size: nat, requested: nat, x: nat)
    requires size >= 1 && Blocks(plugin, size) && Flowing(t, plugin, size, requested) && x < |t.delivered|
    ensures x % size < |plugin(x / size)|
    ensures t.delivered[x] == plugin(x / size)[x % size]
  {
    var stream := t.delivered + t.queue;
    assert t.delivered[x] == stream[x];
    StreamAtAny(plugin, size, t.processCalls, x);
  }

  /** Sample `i` of port `c` in plugin run `k` is the float with the number
      `(k * frames + i) * channels + c`. */
  lemma ExpectedSample(blocks: nat -> seq<seq<Sample>>, frames: nat, channels: nat, k: nat, i: nat, c: nat)
    requires channels >= 1 && frames * channels >= 1 && PluginBlocks(blocks, frames, channels)
    requires i < frames && c < channels
    ensures |blocks(k)| == channels && |blocks(k)[c]| == frames
    ensures ExpectedFloat(blocks, frames, channels, (k * frames + i) * channels + c) == blocks(k)[c][i]
  {
    assert IsBlock(blocks(k), frames);
    var cells, r := frames * channels, i * channels + c;
    CellRoundTrip(i, c, channels);
    FrameInRange(r, channels, frames);
    assert (k * frames + i) * channels + c == k * cells + r by {
      assert (k * frames + i) * channels == k * frames * channels + i * channels;
      assert k * frames * channels == k * (frames * channels);
    }
    CellRoundTrip(k, r, cells);
    CellRoundTrip(k * frames + i, c, channels);
  }

  /** With as many output ports as channels and requests of at most one block of
      `cells` floats, the `g`th float that leaves the callbacks is `ExpectedFloat`,
      whatever the request sizes were. */
  lemma FloatsInOrder(requests: seq<nat>, capacity: nat, plugin: nat -> seq<byte>,
                      blocks: nat -> seq<seq<Sample>>, frames: nat, channels: nat, cells: nat, g: nat)
    requires channels >= 1 && cells == frames * channels >= 1 && PluginBlocks(blocks, frames, channels)
    requires Plays(plugin, blocks, frames, channels)
    requires capacity >= 8 * cells - 1 && AllAtMost(requests, 4 * cells)
    requires 4 * g + 4 <= |Serve(requests, capacity, plugin).delivered|
    ensures var d := Serve(requests, capacity, plugin).delivered;
      Sample(d[4 * g], d[4 * g + 1], d[4 * g + 2], d[4 * g + 3]) == ExpectedFloat(blocks, frames, channels, g)
  {
    var d, s := Serve(requests, capacity, plugin).delivered, ExpectedFloat(blocks, frames, channels, g);
    forall b | 0 <= b < 4
      ensures d[4 * g + b] == SampleByte(s, b)
    {
      FloatBytesInOrder(requests, capacity, plugin, blocks, frames, channels, cells, g, b);
    }
    FloatOfBytes(d, 4 * g, s);
  }

  lemma {:induction false} FloatBytesInOrder(requests: seq<nat>, capacity: nat, plugin: nat -> seq<byte>,
                      blocks: nat -> seq<seq<Sample>>, frames: nat, channels: nat, cells: nat, g: nat, b: nat)
    requires channels >= 1 && cells == frames * channels >= 1 && PluginBlocks(blocks, frames, channels)
    requires Plays(plugin, blocks, frames, channels)
    requires capacity >= 8 * cells - 1 && AllAtMost(requests, 4 * cells)
    requires 4 * g + b < |Serve(requests, capacity, plugin).delivered| && b < 4
    ensures Serve(requests, capacity, plugin).delivered[4 * g + b]
      == SampleByte(ExpectedFloat(blocks, frames, channels, g), b)
  {
    RequestsFlow(requests, capacity, plugin, 4 * cells);
    ByteOfRun(Serve(requests, capacity, plugin), plugin, cells, Sum(requests), g, b);
    assert PlaysFloat(plugin, blocks, frames, channels, g, b);
  }

  lemma ByteOfRun(t: Totals, plugin: nat -> seq<byte>, cells: nat, requested: nat, g: nat, b: nat)
    requires cells >= 1 && Blocks(plugin, 4 * cells) && Flowing(t, plugin, 4 * cells, requested)
    requires b < 4 && 4 * g + b < |t.delivered|
    ensures 4 * (g % cells) + b < |plugin(g / cells)|
    ensures t.delivered[4 * g + b] == plugin(g / cells)[4 * (g % cells) + b]
  {
    ByteIndex(g, b, cells);
    FlowedByte(t, plugin, 4 * cells, requested, 4 * g + b);
  }

  // How large the ring has to be.

  lemma ServeOne(n: nat, capacity: nat, plugin: nat -> seq<byte>)
    ensures var t, s := Serve([n], capacity, plugin), Callback([], capacity, n, plugin(0));
      && t.queue == s.queue && t.delivered == s.delivered
      && t.processCalls == (if s.processed then 1 else 0) && t.shorts == if s.short then 1 else 0
  {
    var one: seq<nat> := [n];
    assert one[..0] == [];
  }

  /** The capacity 2*size - 1 is exactly what requests of at most one block need. */
  lemma RingSizeIsTight(capacity: nat, plugin: nat -> seq<byte>, size: nat)
    requires size >= 1 && Blocks(plugin, size)
    ensures (forall requests: seq<nat> :: AllAtMost(requests, size) ==> Serve(requests, capacity, plugin).shorts == 0)
      <==> capacity >= 2 * size - 1
  {
    if capacity >= 2 * size - 1 {
      forall requests: seq<nat> | AllAtMost(requests, size)
        ensures Serve(requests, capacity, plugin).shorts == 0
      {
        RequestsFlow(requests, capacity, plugin, size);
      }
    } else {
      var two: seq<nat> := [1, size];
      assert two[..1] == [1];
      ServeOne(1, capacity, plugin);
      assert |plugin(0)| == size && |plugin(1)| == size;
      assert Serve(two, capacity, plugin).shorts >= 1;
      assert AllAtMost(two, size);
    }
  }

  /** For one request size, asked for any number of times: no read is ever short
      exactly when a request is at most one block. */
  lemma ConstantRequestsFlow(n: nat, count: nat, capacity: nat, plugin: nat -> seq<byte>, size: nat)
    requires size >= 1 && Blocks(plugin, size) && capacity >= 2 * size - 1 && count >= 1
    ensures Serve(seq(count, _ => n), capacity, plugin).shorts == 0 <==> n <= size
  {
    var requests := seq(count, _ => n);
    if n <= size {
      RequestsFlow(requests, capacity, plugin, size);
    } else {
      assert requests[..1] == [n] && |plugin(0)| == size;
      ServeOne(n, capacity, plugin);
      TotalsGrow(requests, 1, capacity, plugin);
    }
  }

  lemma {:induction false} TotalsGrow(requests: seq<nat>, k: nat, capacity: nat, plugin: nat -> seq<byte>)
    requires k <= |requests|
    ensures var early, late := Serve(requests[..k], capacity, plugin), Serve(requests, capacity, plugin);
      early.shorts <= late.shorts && early.delivered <= late.delivered
  {
    if k < |requests| {
      var before := requests[..|requests| - 1];
      assert before[..k] == requests[..k];
      TotalsGrow(before, k, capacity, plugin);
    } else {
      assert requests[..k] == requests;
    }
  }

  /** When the ring holds one byte less than two blocks, requests above one block
      stall for ever: the first block enters, every later write is refused, and every
      read comes back empty. */
  lemma {:induction false} LargeRequestsStall(requests: seq<nat>, plugin: nat -> seq<byte>, size: nat)
    requires size >= 1 && Blocks(plugin, size) && AllAbove(requests, size) && requests != []
    ensures var t := Serve(requests, 2 * size - 1, plugin);
      && t.delivered == [] && t.queue == plugin(0)
      && t.processCalls == |requests| && t.shorts == |requests| && t.refusals == |requests| - 1
  {
    var before := requests[..|requests| - 1];
    if before != [] {
      LargeRequestsStall(before, plugin, size);
    }
    assert |plugin(0)| == size && |plugin(|before|)| == size;
  }

  lemma SecondBlockDelivers(requests: seq<nat>, capacity: nat, plugin: nat -> seq<byte>, size: nat)
    requires size >= 1 && Blocks(plugin, size) && capacity >= 2 * size
    requires |requests| >= 2 && AllAbove(requests, size) && AllAtMost(requests, 2 * size)
    ensures |Serve(requests, capacity, plugin).delivered| > 0
  {
    assert |plugin(0)| == size && |plugin(1)| == size;
    var two := requests[..2];
    assert two[..1] == [two[0]];
    ServeOne(two[0], capacity, plugin);
    assert |Serve(two, capacity, plugin).delivered| == requests[1];
    TotalsGrow(requests, 2, capacity, plugin);
  }

  /** `initialize` asks for a ring of two blocks. Requests of between one and two blocks
      never deliver a single byte exactly when two blocks are a power of two; otherwise
      the second block enters too, though a stall may still come later. */
  lemma NothingDeliveredExactlyAtPowersOfTwo(requests: seq<nat>, ringSize: nat, plugin: nat -> seq<byte>, size: nat)
    requires size >= 1 && Blocks(plugin, size) && IsLeastPow2(ringSize, 2 * size)
    requires |requests| >= 2 && AllAbove(requests, size) && AllAtMost(requests, 2 * size)
    ensures Serve(requests, ringSize - 1, plugin).delivered == [] <==> IsPow2(2 * size)
  {
    RoundingIsExact(ringSize, 2 * size);
    if ringSize == 2 * size {
      LargeRequestsStall(requests, plugin, size);
    } else {
      SecondBlockDelivers(requests, ringSize - 1, plugin, size);
    }
  }
}
