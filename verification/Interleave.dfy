/** Laying separate port blocks out as interleaved frames (AAPMidiProcessor.cpp:286-297). */
module Interleave {
  import opened Bits

  /** A 32-bit float as the four bytes memory holds; its value is never looked at. */
  datatype Sample = Sample(b0: byte, b1: byte, b2: byte, b3: byte)

  /** What `calloc` leaves in a float. */
  const SILENCE := Sample(0, 0, 0, 0)

  function SampleByte(s: Sample, k: nat): byte {
    if k == 0 then s.b0 else if k == 1 then s.b1 else if k == 2 then s.b2 else s.b3
  }

  /** The memory of a float buffer. */
  function Bytes(s: seq<Sample>): (b: seq<byte>)
    ensures |b| == 4 * |s|
  {
    seq(4 * |s|, x requires 0 <= x < 4 * |s| => SampleByte(s[x / 4], x % 4))
  }

  /** Each float is in the buffer with its own four bytes, in the order memory holds them. */
  lemma {:induction false} BytesOfFloat(s: seq<Sample>, i: nat)
    requires i < |s|
    ensures 4 * i + 4 <= |Bytes(s)|
    ensures Bytes(s)[4 * i..4 * i + 4] == [s[i].b0, s[i].b1, s[i].b2, s[i].b3]
  {
    var b := Bytes(s);
    assert b[4 * i] == s[i].b0 && b[4 * i + 1] == s[i].b1 && b[4 * i + 2] == s[i].b2 && b[4 * i + 3] == s[i].b3;
  }

  /** The float whose memory starts at `at`. */
  function FloatAt(b: seq<byte>, at: nat): Sample
    requires at + 4 <= |b|
  {
    Sample(b[at], b[at + 1], b[at + 2], b[at + 3])
  }

  lemma FloatOfBytes(b: seq<byte>, at: nat, s: Sample)
    requires at + 4 <= |b|
    requires forall k :: 0 <= k < 4 ==> b[at + k] == SampleByte(s, k)
    ensures FloatAt(b, at) == s
  {
    assert b[at + 0] == SampleByte(s, 0) && b[at + 1] == SampleByte(s, 1);
    assert b[at + 2] == SampleByte(s, 2) && b[at + 3] == SampleByte(s, 3);
  }

  /** The loop index of a cell of the interleave buffer: frame and port. */
  function Frame(g: nat, ports: nat): nat
    requires ports > 0
  {
    g / ports
  }

  function Port(g: nat, ports: nat): (p: nat)
    requires ports > 0
    ensures p < ports
  {
    g % ports
  }

  function Cell(i: nat, p: nat, ports: nat): nat {
    i * ports + p
  }

  /** Cells and (frame, port) pairs correspond one to one. */
  lemma CellRoundTrip(i: nat, p: nat, ports: nat)
    requires p < ports
    ensures Frame(Cell(i, p, ports), ports) == i && Port(Cell(i, p, ports), ports) == p
  {
    ModOf(i, p, ports);
    var c := i * ports + p;
    assert c == (c / ports) * ports + c % ports;
    CancelFactor(i, c / ports, ports);
  }

  lemma CellOfIndex(g: nat, ports: nat)
    requires ports > 0
    ensures Cell(Frame(g, ports), Port(g, ports), ports) == g
  {
  }

  lemma FrameInRange(g: nat, ports: nat, frames: nat)
    requires ports > 0
    ensures g < frames * ports <==> Frame(g, ports) < frames
  {
    CellOfIndex(g, ports);
    var i := Frame(g, ports);
    if i < frames {
      MulMonotone(i + 1, frames, ports);
    } else {
      MulMonotone(frames, i, ports);
    }
  }

  /** The loops write past a buffer of `frames * channels` cells exactly when there are
      more ports than channels, and frames at all. */
  lemma CellsStayInside(frames: nat, ports: nat, channels: nat)
    ensures (forall i: nat, p: nat :: i < frames && p < ports ==> Cell(i, p, ports) < frames * channels)
      <==> (ports <= channels || frames == 0)
  {
    if ports <= channels || frames == 0 {
      forall i: nat, p: nat | i < frames && p < ports
        ensures Cell(i, p, ports) < frames * channels
      {
        MulMonotone(i + 1, frames, ports);
        MulMonotone(ports, channels, frames);
      }
    } else {
      var i: nat, p: nat := frames - 1, ports - 1;
      MulMonotone(channels + 1, ports, frames);
      assert Cell(i, p, ports) == frames * ports - 1;
    }
  }

  ghost predicate IsBlock(block: seq<seq<Sample>>, frames: nat) {
    forall p :: 0 <= p < |block| ==> |block[p]| == frames
  }

  /** The cell at `g` of the interleaved block: the sample of its frame and port. */
  function InterleavedAt(block: seq<seq<Sample>>, frames: nat, g: nat): Sample
    requires IsBlock(block, frames) && g < frames * |block|
  {
    var ports := |block|;
    if ports == 0 then SILENCE
    else
      FrameInRange(g, ports, frames);
      block[Port(g, ports)][Frame(g, ports)]
  }

  function Interleaved(block: seq<seq<Sample>>, frames: nat): (s: seq<Sample>)
    requires IsBlock(block, frames)
    ensures |s| == frames * |block|
  {
    seq(frames * |block|, g requires 0 <= g < frames * |block| => InterleavedAt(block, frames, g))
  }

  /** Sample `i` of port `p` is in cell `i * ports + p`. */
  lemma InterleavedCell(block: seq<seq<Sample>>, frames: nat, p: nat, i: nat)
    requires IsBlock(block, frames) && p < |block| && i < frames
    ensures i * |block| + p < frames * |block| && Interleaved(block, frames)[i * |block| + p] == block[p][i]
  {
    CellRoundTrip(i, p, |block|);
    FrameInRange(Cell(i, p, |block|), |block|, frames);
  }

  /** Picking every `ports`th cell gives each port's own block back. */
  lemma {:induction false} Deinterleaved(block: seq<seq<Sample>>, frames: nat, p: nat)
    requires IsBlock(block, frames) && p < |block|
    ensures forall i :: 0 <= i < frames ==> Cell(i, p, |block|) < frames * |block|
    ensures seq(frames, i requires 0 <= i < frames => Interleaved(block, frames)[Cell(i, p, |block|)]) == block[p]
  {
    forall i | 0 <= i < frames
      ensures Cell(i, p, |block|) < frames * |block|
      ensures Interleaved(block, frames)[Cell(i, p, |block|)] == block[p][i]
    {
      CellRoundTrip(i, p, |block|);
      FrameInRange(Cell(i, p, |block|), |block|, frames);
    }
  }

  /** The cell the loops have reached, in the order they go. */
  predicate Done(g: nat, ports: nat, p: nat, i: nat)
    requires ports > 0
  {
    Port(g, ports) < p || (Port(g, ports) == p && Frame(g, ports) < i)
  }

  lemma NextDone(g: nat, ports: nat, p: nat, i: nat)
    requires p < ports
    ensures Done(g, ports, p, i + 1) <==> Done(g, ports, p, i) || g == Cell(i, p, ports)
  {
    CellOfIndex(g, ports);
    CellRoundTrip(i, p, ports);
  }

  /** What the port buffers hold. */
  ghost function PortContents(src: seq<array<Sample>>): (block: seq<seq<Sample>>)
    reads src
    ensures |block| == |src|
    ensures forall p :: 0 <= p < |src| ==> block[p] == src[p][..]
  {
    if src == [] then [] else PortContents(src[..|src| - 1]) + [src[|src| - 1][..]]
  }

  /** The nested loops of `fillAudioOutput` for the instrument's output ports. The
      cells beyond the last frame of `ports` columns are left alone. */
  method InterleavePorts(src: seq<array<Sample>>, frames: nat, buffer: array<Sample>)
    requires forall p :: 0 <= p < |src| ==> src[p].Length == frames && src[p] != buffer
    requires frames * |src| <= buffer.Length
    modifies buffer
    ensures var block := PortContents(src);
      IsBlock(block, frames) && |block| == |src| &&
      buffer[..] == Interleaved(block, frames) + old(buffer[frames * |src|..])
  {
    var ports := |src|;
    ghost var block := PortContents(src);
    ghost var before := buffer[..];
    for p := 0 to ports
      invariant forall q :: 0 <= q < |src| ==> src[q][..] == block[q]
      invariant forall g :: 0 <= g < frames * ports && Done(g, ports, p, 0) ==>
        buffer[g] == InterleavedAt(block, frames, g)
      invariant forall g :: frames * ports <= g < buffer.Length ==> buffer[g] == before[g]
    {
      for i := 0 to frames
        invariant forall q :: 0 <= q < |src| ==> src[q][..] == block[q]
        invariant forall g :: 0 <= g < frames * ports && Done(g, ports, p, i) ==>
          buffer[g] == InterleavedAt(block, frames, g)
        invariant forall g :: frames * ports <= g < buffer.Length ==> buffer[g] == before[g]
      {
        CellRoundTrip(i, p, ports);
        FrameInRange(Cell(i, p, ports), ports, frames);
        buffer[Cell(i, p, ports)] := src[p][i];
        forall g | 0 <= g < frames * ports && Done(g, ports, p, i + 1)
          ensures buffer[g] == InterleavedAt(block, frames, g)
        {
          NextDone(g, ports, p, i);
        }
      }
      forall g | 0 <= g < frames * ports && Done(g, ports, p + 1, 0)
        ensures buffer[g] == InterleavedAt(block, frames, g)
      {
        FrameInRange(g, ports, frames);
      }
    }
  }

  /** Every sample of every port lies in the column of its own channel. */
  predicate OnChannels(block: seq<seq<Sample>>, tail: seq<Sample>, frames: nat, channels: nat)
    requires IsBlock(block, frames)
  {
    var buffer := Interleaved(block, frames) + tail;
    forall p, i :: 0 <= p < |block| && 0 <= i < frames ==>
      Cell(i, p, channels) < |buffer| && buffer[Cell(i, p, channels)] == block[p][i]
  }

  function Marked(mark: Sample, frames: nat, ports: nat): seq<seq<Sample>>
    requires frames >= 2 && ports >= 1
  {
    var silent := seq(frames, _ => SILENCE);
    seq(ports, p => if p == 0 then silent[1 := mark] else silent)
  }

  lemma FewerPortsMisplace(tail: seq<Sample>, frames: nat, ports: nat, channels: nat)
    requires 1 <= ports < channels && frames >= 2
    requires |tail| == frames * channels - frames * ports
    ensures exists block: seq<seq<Sample>> ::
      IsBlock(block, frames) && |block| == ports && !OnChannels(block, tail, frames, channels)
  {
    var cell := Cell(1, 0, channels);
    var size := frames * ports;
    MulMonotone(2, frames, channels);
    var mark := if cell >= size && tail[cell - size] == Sample(1, 0, 0, 0)
      then Sample(2, 0, 0, 0) else Sample(1, 0, 0, 0);
    var block := Marked(mark, frames, ports);
    assert IsBlock(block, frames) && |block| == ports && block[0][1] == mark;
    var buffer := Interleaved(block, frames) + tail;
    if cell < size {
      CellOfIndex(cell, ports);
      FrameInRange(cell, ports, frames);
      assert buffer[cell] == block[Port(cell, ports)][Frame(cell, ports)];
      assert Port(cell, ports) != 0 || Frame(cell, ports) != 1;
      assert buffer[cell] == SILENCE;
    }
    assert buffer[cell] != block[0][1];
    assert !OnChannels(block, tail, frames, channels);
  }

  /** The cell index steps by the number of ports, not of channels, so samples reach
      their channels exactly when the two numbers agree (or a block is one frame). */
  lemma {:induction false} PortsReachChannels(tail: seq<Sample>, frames: nat, ports: nat, channels: nat)
    requires 1 <= ports <= channels && frames >= 1
    requires |tail| == frames * channels - frames * ports
    ensures (forall block: seq<seq<Sample>> ::
        IsBlock(block, frames) && |block| == ports ==> OnChannels(block, tail, frames, channels))
      <==> (ports == channels || frames == 1)
  {
    if ports == channels || frames == 1 {
      forall block: seq<seq<Sample>> | IsBlock(block, frames) && |block| == ports
        ensures OnChannels(block, tail, frames, channels)
      {
        forall p, i | 0 <= p < ports && 0 <= i < frames
          ensures Cell(i, p, channels) < frames * ports
          ensures Interleaved(block, frames)[Cell(i, p, channels)] == block[p][i]
        {
          assert Cell(i, p, channels) == Cell(i, p, ports);
          CellRoundTrip(i, p, ports);
          FrameInRange(Cell(i, p, ports), ports, frames);
        }
      }
    } else {
      FewerPortsMisplace(tail, frames, ports, channels);
    }
  }
}
