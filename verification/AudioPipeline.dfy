/** The audio pull path of AAPMidiProcessor: every callback takes bytes from the
    ring, and the plugin runs only when the ring does not hold enough of them
    (AAPMidiProcessor.cpp:23-67, 265-300). */
module AudioPipeline {
  import opened Bits
  import opened RingArithmetic
  import opened RingContents
  import opened Ring
  import opened Interleave
  import opened Lifecycle

  // One callback, on the queue the ring stands for.

  datatype Served = Served(queue: seq<byte>, delivered: seq<byte>, processed: bool, refused: bool, short: bool)

  /** A request for `n` bytes when the plugin would produce `block` next. */
  function Callback(queue: seq<byte>, capacity: nat, n: nat, block: seq<byte>): Served {
    var processed := |queue| < n;
    var refused := processed && |queue| + |block| > capacity;
    var filled := if processed && !refused then queue + block else queue;
    if n <= |filled| then Served(filled[n..], filled[..n], processed, refused, false)
    else Served(filled, [], processed, refused, true)
  }

  // The same in the three stages of the code.

  function Refilling(queue: seq<byte>, capacity: nat, n: nat, block: seq<byte>): seq<byte> {
    if |queue| < n && |queue| + |block| <= capacity then block else []
  }

  function Rest(queue: seq<byte>, n: nat): seq<byte> {
    if n <= |queue| then queue[n..] else queue
  }

  function Taken(queue: seq<byte>, n: nat): seq<byte> {
    if n <= |queue| then queue[..n] else []
  }

  lemma CallbackParts(queue: seq<byte>, capacity: nat, n: nat, block: seq<byte>)
    ensures var served := Callback(queue, capacity, n, block);
      var filled := queue + Refilling(queue, capacity, n, block);
      served.queue == Rest(filled, n) && served.delivered == Taken(filled, n) && served.processed == (|queue| < n)
  {
    assert queue + [] == queue;
  }

  /** The part of AAPMidiProcessor the audio callback works on. `outPorts` are the audio
      output buffers, in the order found, of the instance whose number is the one kept for
      the instrument. That number is 0 until an instrument is taken in, so it may belong to
      another instance; where no instance has it, there are no ports and the callback plays
      the buffer as it is. */
  class AudioProcessor {
    const frameSize: nat
    const channelCount: nat
    const ring: ZixRing
    const interleaveBuffer: array<Sample>
    const outPorts: seq<array<Sample>>
    var state: ProcessorState

    ghost predicate Valid()
      reads this, ring
    {
      && 1 <= frameSize * channelCount <= 0x1000_0000
      && ring.Valid()
      && IsLeastPow2(ring.size, 8 * (frameSize * channelCount))
      && interleaveBuffer.Length == frameSize * channelCount
      && Reached() <= interleaveBuffer.Length
      && (forall p :: 0 <= p < |outPorts| ==>
            outPorts[p].Length == frameSize && outPorts[p] != interleaveBuffer)
      && (forall p, q :: 0 <= p < q < |outPorts| ==> outPorts[p] != outPorts[q])
    }

    /** How many cells of the interleave buffer the ports reach. */
    ghost function Reached(): nat {
      frameSize * |outPorts|
    }

    /** The cells no port reaches. */
    ghost function Tail(): seq<Sample>
      requires Reached() <= interleaveBuffer.Length
      reads interleaveBuffer
    {
      interleaveBuffer[Reached()..]
    }

    /** The bytes one plugin run puts into the ring: the interleaved ports, then
        what the buffer held in the cells no port reaches. */
    ghost function BlockBytes(block: seq<seq<Sample>>): (b: seq<byte>)
      requires IsBlock(block, frameSize) && |block| == |outPorts|
      requires Reached() <= interleaveBuffer.Length
      reads interleaveBuffer
      ensures |b| == 4 * interleaveBuffer.Length
    {
      Bytes(Interleaved(block, frameSize) + Tail())
    }

    /** With as many ports as channels a block is the interleaved ports and nothing else,
        and the ring holds two blocks less one byte: what the theorems on runs ask for. */
    lemma MeetsRunConditions(block: seq<seq<Sample>>)
      requires Valid() && |outPorts| == channelCount
      requires IsBlock(block, frameSize) && |block| == |outPorts|
      ensures BlockBytes(block) == Bytes(Interleaved(block, frameSize))
      ensures |BlockBytes(block)| == 4 * (frameSize * channelCount)
      ensures ring.size - 1 >= 8 * (frameSize * channelCount) - 1
    {
      assert Tail() == [];
      assert Interleaved(block, frameSize) + [] == Interleaved(block, frameSize);
    }

    /** `initialize`, as far as audio is concerned, once the ports are known. */
    constructor (frames: nat, channels: nat, ports: seq<array<Sample>>)
      requires 1 <= frames * channels <= 0x1000_0000
      requires |ports| <= channels
      requires forall p :: 0 <= p < |ports| ==> ports[p].Length == frames
      requires forall p, q :: 0 <= p < q < |ports| ==> ports[p] != ports[q]
      ensures Valid() && state == Created && ring.Contents() == []
      ensures IsLeastPow2(ring.size, 2 * 4 * (frames * channels)) && interleaveBuffer.Length == frames * channels
      ensures frameSize == frames && channelCount == channels && outPorts == ports
      ensures fresh(ring) && fresh(ring.buf) && fresh(interleaveBuffer)
      ensures forall g :: 0 <= g < interleaveBuffer.Length ==> interleaveBuffer[g] == Sample(0, 0, 0, 0)
    {
      frameSize := frames;
      channelCount := channels;
      outPorts := ports;
      state := Created;
      var buffer := new Sample[frames * channels](_ => SILENCE);
      interleaveBuffer := buffer;
      ring := new ZixRing(frames * channels * 4 * 2);
      MulMonotone(|ports|, channels, frames);
    }

    /** `activate`, as far as audio is concerned: what it makes of the state. */
    method Activate(streamOpens: bool)
      modifies this`state
      ensures state == if (old(state) == Created || old(state) == Inactive) && streamOpens then Active else Error
      ensures forall f: Fields :: f.state == old(state) ==> state == After(f, Call.Activate(streamOpens)).state
    {
      state := if (state == Created || state == Inactive) && streamOpens then Active else Error;
    }

    static method Overwrite(port: array<Sample>, samples: seq<Sample>)
      requires port.Length == |samples|
      modifies port
      ensures port[..] == samples
    {
      forall i | 0 <= i < port.Length {
        port[i] := samples[i];
      }
    }

    /** The plugin's `process`, which is foreign code: it leaves `block`, whatever
        that is, in the output port buffers. */
    method CallPluginProcess(block: seq<seq<Sample>>)
      requires Valid() && IsBlock(block, frameSize) && |block| == |outPorts|
      modifies outPorts
      ensures PortContents(outPorts) == block
      ensures interleaveBuffer[..] == old(interleaveBuffer[..])
      ensures ring.Contents() == old(ring.Contents())
    {
      for p := 0 to |outPorts|
        invariant forall q :: 0 <= q < p ==> outPorts[q][..] == block[q]
        invariant Valid()
        invariant interleaveBuffer[..] == old(interleaveBuffer[..])
        invariant ring.Contents() == old(ring.Contents())
      {
        Overwrite(outPorts[p], block[p]);
      }
    }

    /** `fillAudioOutput`. */
    method FillAudioOutput()
      requires Valid()
      modifies interleaveBuffer, ring, ring.buf
      ensures Valid()
      ensures PortContents(outPorts) == old(PortContents(outPorts))
      ensures interleaveBuffer[..] ==
        Interleaved(PortContents(outPorts), frameSize) + old(Tail())
      ensures ring.Contents() == old(ring.Contents()) +
        if old(|ring.Contents()|) + 4 * interleaveBuffer.Length < ring.size then Bytes(interleaveBuffer[..]) else []
    {
      InterleavePorts(outPorts, frameSize, interleaveBuffer);
      var accepted := ring.Write(Bytes(interleaveBuffer[..]));
    }

    /** The two calls a starving callback makes (AAPMidiProcessor.cpp:45, 59). */
    method Refill(block: seq<seq<Sample>>)
      requires Valid() && IsBlock(block, frameSize) && |block| == |outPorts|
      modifies ring, ring.buf, interleaveBuffer, outPorts
      ensures Valid()
      ensures ring.Contents() == old(ring.Contents()) +
        if old(|ring.Contents()|) + 4 * interleaveBuffer.Length < ring.size then old(BlockBytes(block)) else []
      ensures PortContents(outPorts) == block
      ensures Tail() == old(Tail())
    {
      ghost var tail := Tail();
      CallPluginProcess(block);
      assert Tail() == interleaveBuffer[..][Reached()..] == tail;
      FillAudioOutput();
      assert interleaveBuffer[..] == Interleaved(block, frameSize) + tail;
      assert Tail() == interleaveBuffer[..][Reached()..];
    }

    /** AAPMidiProcessor.cpp:40-61: the plugin runs only when the ring starves. */
    method RefillWhenStarved(n: nat, block: seq<seq<Sample>>)
      requires Valid() && IsBlock(block, frameSize) && |block| == |outPorts|
      modifies ring, ring.buf, interleaveBuffer, outPorts
      ensures Valid() && Tail() == old(Tail())
      ensures ring.Contents() == old(ring.Contents()) +
        Refilling(old(ring.Contents()), ring.size - 1, n, old(BlockBytes(block)))
      ensures PortContents(outPorts) == if old(|ring.Contents()|) < n then block else old(PortContents(outPorts))
    {
      var readSpace := ring.GetReadSpace();
      if readSpace < n {
        Refill(block);
      }
    }

    /** AAPMidiProcessor.cpp:63: the read that may come back empty. */
    method Deliver(audioData: array<byte>, n: nat)
      requires Valid() && n <= audioData.Length && n < U32_MODULUS && audioData != ring.buf
      modifies ring`readHead, audioData
      ensures Valid() && Tail() == old(Tail()) && PortContents(outPorts) == old(PortContents(outPorts))
      ensures ring.Contents() == Rest(old(ring.Contents()), n)
      ensures audioData[..] == Store(old(audioData[..]), 0, Taken(old(ring.Contents()), n))
    {
      ghost var before := audioData[..];
      var got := ring.Read(audioData, n);
      assert Store(before, 0, []) == before;
    }

    /** The body of `onAudioReady` in the ACTIVE state. */
    method ServeRequest(audioData: array<byte>, n: nat, block: seq<seq<Sample>>)
      requires Valid() && IsBlock(block, frameSize) && |block| == |outPorts|
      requires n <= audioData.Length && n < U32_MODULUS && audioData != ring.buf
      modifies ring, ring.buf, interleaveBuffer, audioData, outPorts
      ensures Valid() && Tail() == old(Tail())
      ensures PortContents(outPorts) == if old(|ring.Contents()|) < n then block else old(PortContents(outPorts))
      ensures var filled := old(ring.Contents())
          + Refilling(old(ring.Contents()), ring.size - 1, n, old(BlockBytes(block)));
        ring.Contents() == Rest(filled, n) && audioData[..] == Store(old(audioData[..]), 0, Taken(filled, n))
    {
      ghost var data := audioData[..];
      RefillWhenStarved(n, block);
      assert audioData[..] == data;
      Deliver(audioData, n);
    }

    /** The room the stream hands over for `numFrames` frames of all its channels. */
    function BufferBytes(numFrames: nat): nat {
      4 * (numFrames * channelCount)
    }

    lemma BufferHoldsRequest(numFrames: nat)
      requires Valid()
      ensures 4 * numFrames <= BufferBytes(numFrames)
    {
      if channelCount >= 1 {
        MulMonotone(1, channelCount, numFrames);
      }
    }

    /** `onAudioReady`: outside ACTIVE it does nothing; otherwise the ring goes through
        `Callback`, and the bytes delivered are the head of `audioData`. The
        request is for `numFrames` floats, whatever the number of channels. */
    method OnAudioReady(audioData: array<byte>, numFrames: nat, block: seq<seq<Sample>>)
      requires Valid() && IsBlock(block, frameSize) && |block| == |outPorts|
      requires 4 * numFrames <= audioData.Length && 4 * numFrames < U32_MODULUS
      requires audioData != ring.buf
      modifies ring, ring.buf, interleaveBuffer, audioData, outPorts
      ensures Valid() && Tail() == old(Tail())
      ensures state != Active ==>
        ring.Contents() == old(ring.Contents()) && audioData[..] == old(audioData[..])
      ensures state == Active ==>
        var served := Callback(old(ring.Contents()), ring.size - 1, 4 * numFrames, old(BlockBytes(block)));
        && ring.Contents() == served.queue
        && audioData[..] == Store(old(audioData[..]), 0, served.delivered)
        && PortContents(outPorts) == if served.processed then block else old(PortContents(outPorts))
    {
      if state != Active {
        return;
      }
      CallbackParts(ring.Contents(), ring.size - 1, 4 * numFrames, BlockBytes(block));
      ServeRequest(audioData, numFrames * 4, block);
    }
  }
}
