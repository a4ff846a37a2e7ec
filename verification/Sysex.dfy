/** Splitting system exclusive messages into packets (cmidi2.h:297-299, 317-417), and
    the receiver that puts them together again as sections 4.4 and 4.5 of M2-104-UM
    lay down. */
module Sysex {
  import opened Bits
  import opened Options
  import opened BigEndian

  const IN_ONE_UMP: nat := 0x00
  const START: nat := 0x10
  const CONTINUE: nat := 0x20
  const END: nat := 0x30

  const TYPE_SYSEX7: nat := 3
  const TYPE_SYSEX8: nat := 5

  /** `cmidi2_ump_sysex_get_num_packets`. */
  function NumPackets(numBytes: nat, radix: nat): nat
    requires radix > 0
  {
    if numBytes <= radix then 1 else numBytes / radix + (if numBytes % radix != 0 then 1 else 0)
  }

  function StatusOf(numBytes: nat, radix: nat, index: nat): nat
    requires radix > 0
  {
    if numBytes <= radix then IN_ONE_UMP
    else if index == 0 then START
    else if index == NumPackets(numBytes, radix) - 1 then END
    else CONTINUE
  }

  function Least(a: nat, b: nat): nat {
    if a < b then a else b
  }

  /** The share of the data that packet `index` carries. */
  function Chunk(data: seq<byte>, radix: nat, index: nat): (c: seq<byte>)
    ensures |c| <= radix
  {
    var from := Least(index * radix, |data|);
    data[from..Least(from + radix, |data|)]
  }

  /** The sixteen bytes of a packet; a SysEx7 packet is the first eight. */
  function PacketBytes(group: nat, messageType: nat, idBytes: seq<byte>, status: nat, chunk: seq<byte>): (p: seq<byte>)
    requires messageType < 16 && |idBytes| <= 1 && |chunk| <= 14 - |idBytes| && status <= END && status % 16 == 0
    ensures |p| == 16
  {
    [messageType * 16 + group % 16, status + |chunk| + |idBytes|] + idBytes + chunk
      + seq(14 - |idBytes| - |chunk|, _ => 0)
  }

  function IdBytes(hasStreamId: bool, streamId: byte): (id: seq<byte>)
    ensures |id| == if hasStreamId then 1 else 0
  {
    if hasStreamId then [streamId] else []
  }

  lemma LastChunk(numBytes: nat, radix: nat, index: nat)
    requires radix > 0 && numBytes > radix && index == NumPackets(numBytes, radix) - 1
    ensures index * radix < numBytes <= index * radix + radix
    ensures numBytes - index * radix == if numBytes % radix != 0 then numBytes % radix else radix
  {
    var q, r := numBytes / radix, numBytes % radix;
    assert numBytes == q * radix + r;
    assert (q - 1) * radix == q * radix - radix;
  }

  lemma EarlierChunk(numBytes: nat, radix: nat, index: nat)
    requires radix > 0 && numBytes > radix && index < NumPackets(numBytes, radix) - 1
    ensures index * radix + radix <= numBytes
  {
    var last := NumPackets(numBytes, radix) - 1;
    LastChunk(numBytes, radix, last);
    MulMonotone(index + 1, last, radix);
    assert (index + 1) * radix == index * radix + radix;
  }

  /** The copying loop, whose source index is a byte. */
  method CopyData(dst8: array<byte>, dstOffset: nat, src: seq<byte>, start: nat, size: nat)
    requires dstOffset + size <= dst8.Length == 16 && start + size <= |src| && start + size <= 255
    modifies dst8
    ensures dst8[..] == old(dst8[..dstOffset]) + src[start..start + size] + old(dst8[dstOffset + size..])
  {
    ghost var before := dst8[..];
    var i, j := 0, start % 256;
    while i < size
      invariant 0 <= i <= size && j == start + i
      invariant dst8[..dstOffset] == before[..dstOffset]
      invariant dst8[dstOffset..dstOffset + i] == src[start..start + i]
      invariant forall k :: dstOffset + i <= k < 16 ==> dst8[k] == before[k]
    {
      dst8[i + dstOffset] := src[j];
      i := i + 1;
      j := (j + 1) % 256;
    }
  }

  /** `cmidi2_ump_sysex_get_packet_of`, for an index within the message. The two result
      words, laid out in bytes, are the packet. */
  method GetPacketOf(group: nat, numBytes: nat, src: seq<byte>, index: nat,
                     messageType: nat, radix: nat, hasStreamId: bool, streamId: byte)
    returns (result1: nat, result2: nat)
    requires 1 <= radix <= 14 - (if hasStreamId then 1 else 0) && messageType < 16
    requires numBytes <= 255 && numBytes <= |src| && index < NumPackets(numBytes, radix)
    ensures Layout(8, result1) + Layout(8, result2) ==
      PacketBytes(group, messageType, IdBytes(hasStreamId, streamId),
                  StatusOf(numBytes, radix, index), Chunk(src[..numBytes], radix, index))
    ensures PacketOnWire(Layout(8, result1) + Layout(8, result2), index, NumPackets(numBytes, radix), messageType,
                         group, IdBytes(hasStreamId, streamId), radix, 16, src[..numBytes])
  {
    var status, size := StatusAndSize(numBytes, radix, index);
    var start := index * radix;
    ChunkOfSource(src, numBytes, radix, index, start);
    result1, result2 := BuildPacket(group, messageType, hasStreamId, streamId, status, size, src, start);
    WholePacketOnWire(Layout(8, result1) + Layout(8, result2), group, messageType, radix,
                      IdBytes(hasStreamId, streamId), src[..numBytes], index);
  }

  lemma ChunkOfSource(src: seq<byte>, numBytes: nat, radix: nat, index: nat, start: nat)
    requires radix > 0 && numBytes <= |src| && index < NumPackets(numBytes, radix) && start == index * radix
    ensures start + ChunkLength(numBytes, radix, index) <= numBytes
    ensures ChunkLength(numBytes, radix, index) <= radix
    ensures Chunk(src[..numBytes], radix, index) == src[start..start + ChunkLength(numBytes, radix, index)]
  {
    var data := src[..numBytes];
    ChunkSize(data, radix, index);
    var n := ChunkLength(numBytes, radix, index);
    assert data[start..start + n] == src[start..start + n];
  }

  /** The status and size decisions of `get_packet_of` (cmidi2.h:325-342). */
  method StatusAndSize(numBytes: nat, radix: nat, index: nat) returns (status: nat, size: nat)
    requires radix > 0 && index < NumPackets(numBytes, radix)
    ensures status == StatusOf(numBytes, radix, index)
    ensures size == ChunkLength(numBytes, radix, index)
  {
    if numBytes <= radix {
      status := IN_ONE_UMP;
      size := numBytes;
    } else if index == 0 {
      status := START;
      size := radix;
    } else {
      var isEnd := index == NumPackets(numBytes, radix) - 1;
      if isEnd {
        size := if numBytes % radix != 0 then numBytes % radix else radix;
        status := END;
      } else {
        size := radix;
        status := CONTINUE;
      }
    }
    if numBytes > radix {
      FirstIsNotLast(numBytes, radix);
    }
  }

  lemma FirstIsNotLast(numBytes: nat, radix: nat)
    requires radix > 0 && numBytes > radix
    ensures NumPackets(numBytes, radix) >= 2
  {
    var last := NumPackets(numBytes, radix) - 1;
    LastChunk(numBytes, radix, last);
  }

  /** Filling the sixteen bytes and reading the two words (cmidi2.h:319-323, 343-354). */
  method BuildPacket(group: nat, messageType: nat, hasStreamId: bool, streamId: byte,
                     status: nat, size: nat, src: seq<byte>, start: nat)
    returns (result1: nat, result2: nat)
    requires messageType < 16 && status <= END && status % 16 == 0
    requires size <= 14 - (if hasStreamId then 1 else 0)
    requires start + size <= |src| && start + size <= 255
    ensures Layout(8, result1) + Layout(8, result2) ==
      PacketBytes(group, messageType, IdBytes(hasStreamId, streamId), status, src[start..start + size])
  {
    var dst8 := new byte[16](_ => 0);
    dst8[0] := messageType * 16 + group % 16;
    dst8[1] := status + size + if hasStreamId then 1 else 0;
    if hasStreamId {
      dst8[2] := streamId;
    }
    var dstOffset := if hasStreamId then 3 else 2;
    assert dst8[..dstOffset] ==
      [messageType * 16 + group % 16, status + size + (if hasStreamId then 1 else 0)] + IdBytes(hasStreamId, streamId);
    assert dst8[dstOffset + size..] == seq(16 - dstOffset - size, _ => 0);
    CopyData(dst8, dstOffset, src, start, size);
    result1, result2 := ReadPacketWords(dst8[..]);
  }

  function ChunkLength(numBytes: nat, radix: nat, index: nat): nat
    requires radix > 0
  {
    if numBytes <= radix then numBytes
    else if index < NumPackets(numBytes, radix) - 1 then radix
    else if numBytes % radix != 0 then numBytes % radix
    else radix
  }

  lemma {:induction false} ChunkSize(data: seq<byte>, radix: nat, index: nat)
    requires radix > 0 && index < NumPackets(|data|, radix)
    ensures var c := Chunk(data, radix, index);
      && index * radix + |c| <= |data|
      && c == data[index * radix..index * radix + |c|]
      && |c| == ChunkLength(|data|, radix, index)
  {
    if |data| > radix {
      if index == NumPackets(|data|, radix) - 1 {
        LastChunk(|data|, radix, index);
      } else {
        EarlierChunk(|data|, radix, index);
      }
    }
  }

  // The receiving side.

  /** The status digit of a packet and the data bytes its size digit declares, less
      `ids` bytes of stream id. */
  function Status(p: seq<byte>): nat
    requires |p| >= 2
  {
    p[1] - p[1] % 16
  }

  function Data(p: seq<byte>, ids: nat): Option<seq<byte>>
    requires |p| >= 2
  {
    var n := p[1] % 16;
    if ids <= n && 2 + n <= |p| then Some(p[2 + ids..2 + n]) else None
  }

  /** One packet with status IN_ONE_UMP, or START, any number of CONTINUE, and END. */
  predicate StatusesInOrder(ps: seq<seq<byte>>)
    requires forall i :: 0 <= i < |ps| ==> |ps[i]| >= 2
  {
    if |ps| == 1 then Status(ps[0]) == IN_ONE_UMP
    else
      && |ps| >= 2
      && Status(ps[0]) == START
      && Status(ps[|ps| - 1]) == END
      && forall i :: 0 < i < |ps| - 1 ==> Status(ps[i]) == CONTINUE
  }

  function Joined(ps: seq<seq<byte>>, ids: nat): Option<seq<byte>> {
    if ps == [] then Some([])
    else
      var last := ps[|ps| - 1];
      if |last| < 2 then None
      else
        match (Joined(ps[..|ps| - 1], ids), Data(last, ids))
        case (Some(b), Some(d)) => Some(b + d)
        case _ => None
  }

  /** The message a receiver reads from a sequence of packets of one stream. */
  function Received(ps: seq<seq<byte>>, ids: nat): Option<seq<byte>> {
    if (forall i :: 0 <= i < |ps| ==> |ps[i]| >= 2) && StatusesInOrder(ps) then Joined(ps, ids) else None
  }

  /** The packets of a message of at most 255 bytes. */
  function Split(group: nat, messageType: nat, radix: nat, idBytes: seq<byte>, length: nat, data: seq<byte>)
    : (ps: seq<seq<byte>>)
    requires messageType < 16 && |idBytes| <= 1 && 1 <= radix <= 14 - |idBytes| && 2 <= length <= 16
    ensures |ps| == NumPackets(|data|, radix)
  {
    seq(NumPackets(|data|, radix), i requires 0 <= i < NumPackets(|data|, radix) =>
      PacketBytes(group, messageType, idBytes, StatusOf(|data|, radix, i), Chunk(data, radix, i))[..length])
  }

  lemma PacketParts(group: nat, messageType: nat, idBytes: seq<byte>, status: nat, chunk: seq<byte>, length: nat)
    requires messageType < 16 && |idBytes| <= 1 && |chunk| <= 14 - |idBytes| && status <= END && status % 16 == 0
    requires 2 + |idBytes| + |chunk| <= length <= 16
    ensures var p := PacketBytes(group, messageType, idBytes, status, chunk)[..length];
      && p[0] / 16 == messageType && p[0] % 16 == group % 16
      && Status(p) == status && Data(p, |idBytes|) == Some(chunk)
      && p[2..2 + |idBytes|] == idBytes
  {
    var whole := PacketBytes(group, messageType, idBytes, status, chunk);
    var p, n := whole[..length], |chunk| + |idBytes|;
    var head: seq<byte> := [messageType * 16 + group % 16, status + n];
    var zeros: seq<byte> := seq(14 - |idBytes| - |chunk|, _ => 0);
    assert whole == head + idBytes + (chunk + zeros) == head + idBytes + chunk + zeros;
    assert p[0] == head[0] && p[1] == head[1];
    SmallDigit(status, n);
    SmallDigit(messageType * 16, group % 16);
    MiddlePart(head, idBytes, chunk + zeros);
    MiddlePart(head + idBytes, chunk, zeros);
    SliceOfPrefix(whole, length, 2, 2 + |idBytes|);
    SliceOfPrefix(whole, length, 2 + |idBytes|, 2 + n);
  }

  lemma SliceOfPrefix(b: seq<byte>, length: nat, from: nat, to: nat)
    requires from <= to <= length <= |b|
    ensures b[..length][from..to] == b[from..to]
  {
  }

  lemma MiddlePart(a: seq<byte>, b: seq<byte>, c: seq<byte>)
    ensures (a + b + c)[|a|..|a| + |b|] == b
  {
  }

  lemma SmallDigit(status: nat, n: nat)
    requires status % 16 == 0 && n < 16
    ensures (status + n) % 16 == n && (status + n) / 16 == status / 16
  {
  }

  lemma SplitPacket(group: nat, messageType: nat, radix: nat, idBytes: seq<byte>, length: nat,
                    data: seq<byte>, i: nat)
    requires messageType < 16 && |idBytes| <= 1 && 1 <= radix <= 14 - |idBytes|
    requires 2 + |idBytes| + radix <= length <= 16 && i < NumPackets(|data|, radix)
    ensures var p := Split(group, messageType, radix, idBytes, length, data)[i];
      && |p| == length && p[0] / 16 == messageType && p[0] % 16 == group % 16
      && Status(p) == StatusOf(|data|, radix, i) && Data(p, |idBytes|) == Some(Chunk(data, radix, i))
      && p[2..2 + |idBytes|] == idBytes
  {
    PacketParts(group, messageType, idBytes, StatusOf(|data|, radix, i), Chunk(data, radix, i), length);
  }

  lemma ChunkExtends(data: seq<byte>, radix: nat, i: nat)
    ensures data[..Least(i * radix, |data|)] + Chunk(data, radix, i) == data[..Least((i + 1) * radix, |data|)]
  {
    assert (i + 1) * radix == i * radix + radix;
  }

  lemma {:induction false} SplitJoined(group: nat, messageType: nat, radix: nat, idBytes: seq<byte>, length: nat,
                                      data: seq<byte>, k: nat)
    requires messageType < 16 && |idBytes| <= 1 && 1 <= radix <= 14 - |idBytes|
    requires 2 + |idBytes| + radix <= length <= 16 && k <= NumPackets(|data|, radix)
    ensures var ps := Split(group, messageType, radix, idBytes, length, data);
      Joined(ps[..k], |idBytes|) == Some(data[..Least(k * radix, |data|)])
  {
    var ps := Split(group, messageType, radix, idBytes, length, data);
    if k > 0 {
      SplitJoined(group, messageType, radix, idBytes, length, data, k - 1);
      assert ps[..k][..k - 1] == ps[..k - 1];
      SplitPacket(group, messageType, radix, idBytes, length, data, k - 1);
      ChunkExtends(data, radix, k - 1);
    }
  }

  lemma AllChunksReached(numBytes: nat, radix: nat)
    requires radix > 0
    ensures NumPackets(numBytes, radix) * radix >= numBytes
  {
    if numBytes > radix {
      var last := NumPackets(numBytes, radix) - 1;
      LastChunk(numBytes, radix, last);
      assert (last + 1) * radix == last * radix + radix;
    }
  }

  lemma {:induction false} SplitOrdered(group: nat, messageType: nat, radix: nat, idBytes: seq<byte>,
                                       length: nat, data: seq<byte>)
    requires messageType < 16 && |idBytes| <= 1 && 1 <= radix <= 14 - |idBytes|
    requires 2 + |idBytes| + radix <= length <= 16
    ensures var ps := Split(group, messageType, radix, idBytes, length, data);
      && (forall i :: 0 <= i < |ps| ==> |ps[i]| == length && ps[i][0] / 16 == messageType && ps[i][0] % 16 == group % 16
                                        && ps[i][2..2 + |idBytes|] == idBytes)
      && StatusesInOrder(ps)
  {
    var ps := Split(group, messageType, radix, idBytes, length, data);
    forall i | 0 <= i < |ps|
      ensures |ps[i]| == length && ps[i][0] / 16 == messageType && ps[i][0] % 16 == group % 16
      ensures ps[i][2..2 + |idBytes|] == idBytes && Status(ps[i]) == StatusOf(|data|, radix, i)
    {
      SplitPacket(group, messageType, radix, idBytes, length, data, i);
    }
    if |data| > radix {
      FirstIsNotLast(|data|, radix);
    }
  }

  /** A receiver gets back exactly the bytes that were split. */
  lemma {:induction false} SplitReceived(group: nat, messageType: nat, radix: nat, idBytes: seq<byte>,
                                         length: nat, data: seq<byte>)
    requires messageType < 16 && |idBytes| <= 1 && 1 <= radix <= 14 - |idBytes|
    requires 2 + |idBytes| + radix <= length <= 16
    ensures Received(Split(group, messageType, radix, idBytes, length, data), |idBytes|) == Some(data)
  {
    var ps := Split(group, messageType, radix, idBytes, length, data);
    SplitOrdered(group, messageType, radix, idBytes, length, data);
    SplitJoined(group, messageType, radix, idBytes, length, data, |ps|);
    AllChunksReached(|data|, radix);
    assert ps[..|ps|] == ps && data[..|data|] == data;
  }

  // What goes on the wire.

  /** Packet `i` of `count`, byte by byte: type and group; a status of 0 for the only packet,
      1 for the first, 2 for those between and 3 for the last, with the number of bytes that
      follow; the stream id, if there is one; the packet's share of the data; and zeros. */
  predicate PacketOnWire(p: seq<byte>, i: nat, count: nat, messageType: nat, group: nat, idBytes: seq<byte>,
                         radix: nat, length: nat, data: seq<byte>) {
    var from := i * radix;
    var n := if i + 1 == count then |data| - from else radix;
    && |p| == length && 0 <= n && from + n <= |data| && 2 + |idBytes| + n <= length
    && p[0] / 16 == messageType && p[0] % 16 == group % 16
    && p[1] / 16 == (if count == 1 then 0 else if i == 0 then 1 else if i + 1 == count then 3 else 2)
    && p[1] % 16 == |idBytes| + n
    && p[2..2 + |idBytes|] == idBytes
    && p[2 + |idBytes|..2 + |idBytes| + n] == data[from..from + n]
    && forall k :: 2 + |idBytes| + n <= k < length ==> p[k] == 0
  }

  /** As many packets as the data needs, and one for none, each as it should be. */
  predicate OnWire(ps: seq<seq<byte>>, messageType: nat, group: nat, idBytes: seq<byte>,
                   radix: nat, length: nat, data: seq<byte>) {
    && |ps| >= 1
    && (|ps| - 1) * radix <= |data| <= |ps| * radix
    && (|ps| > 1 ==> (|ps| - 1) * radix < |data|)
    && forall i :: 0 <= i < |ps| ==> PacketOnWire(ps[i], i, |ps|, messageType, group, idBytes, radix, length, data)
  }

  lemma ShareOf(numBytes: nat, radix: nat, index: nat)
    requires radix > 0 && index < NumPackets(numBytes, radix)
    ensures var count := NumPackets(numBytes, radix);
      ChunkLength(numBytes, radix, index) == if index + 1 == count then numBytes - index * radix else radix
  {
    if numBytes > radix && index + 1 == NumPackets(numBytes, radix) {
      LastChunk(numBytes, radix, index);
    }
  }

  lemma StatusNumber(numBytes: nat, radix: nat, index: nat)
    requires radix > 0 && index < NumPackets(numBytes, radix)
    ensures var count := NumPackets(numBytes, radix);
      StatusOf(numBytes, radix, index)
      == 16 * (if count == 1 then 0 else if index == 0 then 1 else if index + 1 == count then 3 else 2)
  {
    if numBytes > radix {
      FirstIsNotLast(numBytes, radix);
    }
  }

  lemma PacketZeros(group: nat, messageType: nat, idBytes: seq<byte>, status: nat, chunk: seq<byte>, k: nat)
    requires messageType < 16 && |idBytes| <= 1 && |chunk| <= 14 - |idBytes| && status <= END && status % 16 == 0
    requires 2 + |idBytes| + |chunk| <= k < 16
    ensures PacketBytes(group, messageType, idBytes, status, chunk)[k] == 0
  {
  }

  /** A packet as `PacketBytes` builds it is as it should be. */
  lemma BuiltOnWire(group: nat, messageType: nat, radix: nat, idBytes: seq<byte>, length: nat,
                    data: seq<byte>, i: nat)
    requires messageType < 16 && |idBytes| <= 1 && 1 <= radix <= 14 - |idBytes|
    requires 2 + |idBytes| + radix <= length <= 16 && i < NumPackets(|data|, radix)
    ensures var p := PacketBytes(group, messageType, idBytes, StatusOf(|data|, radix, i), Chunk(data, radix, i));
      PacketOnWire(p[..length], i, NumPackets(|data|, radix), messageType, group, idBytes, radix, length, data)
  {
    var status, chunk := StatusOf(|data|, radix, i), Chunk(data, radix, i);
    var whole := PacketBytes(group, messageType, idBytes, status, chunk);
    ChunkSize(data, radix, i);
    ShareOf(|data|, radix, i);
    StatusNumber(|data|, radix, i);
    PacketParts(group, messageType, idBytes, status, chunk, length);
    forall k | 2 + |idBytes| + |chunk| <= k < length
      ensures whole[..length][k] == 0
    {
      PacketZeros(group, messageType, idBytes, status, chunk, k);
    }
  }

  lemma WholePacketOnWire(p: seq<byte>, group: nat, messageType: nat, radix: nat, idBytes: seq<byte>,
                          data: seq<byte>, i: nat)
    requires messageType < 16 && |idBytes| <= 1 && 1 <= radix <= 14 - |idBytes| && i < NumPackets(|data|, radix)
    requires p == PacketBytes(group, messageType, idBytes, StatusOf(|data|, radix, i), Chunk(data, radix, i))
    ensures PacketOnWire(p, i, NumPackets(|data|, radix), messageType, group, idBytes, radix, 16, data)
  {
    BuiltOnWire(group, messageType, radix, idBytes, 16, data, i);
    assert p[..16] == p;
  }

  lemma PacketsNeeded(numBytes: nat, radix: nat)
    requires radix > 0
    ensures var count := NumPackets(numBytes, radix);
      && count >= 1 && (count - 1) * radix <= numBytes <= count * radix
      && (count > 1 ==> (count - 1) * radix < numBytes)
  {
    AllChunksReached(numBytes, radix);
    if numBytes > radix {
      LastChunk(numBytes, radix, NumPackets(numBytes, radix) - 1);
    }
  }

  lemma SplitOnWire(group: nat, messageType: nat, radix: nat, idBytes: seq<byte>, length: nat, data: seq<byte>)
    requires messageType < 16 && |idBytes| <= 1 && 1 <= radix <= 14 - |idBytes|
    requires 2 + |idBytes| + radix <= length <= 16
    ensures OnWire(Split(group, messageType, radix, idBytes, length, data), messageType, group, idBytes,
                   radix, length, data)
  {
    var ps := Split(group, messageType, radix, idBytes, length, data);
    PacketsNeeded(|data|, radix);
    forall i | 0 <= i < |ps|
      ensures PacketOnWire(ps[i], i, |ps|, messageType, group, idBytes, radix, length, data)
    {
      BuiltOnWire(group, messageType, radix, idBytes, length, data, i);
    }
  }

  // The two `process` functions.

  /** The first 0xF7 is at `end`. */
  predicate EndsAt(src: seq<byte>, end: nat) {
    end < |src| && src[end] == 0xF7 && forall k :: 0 <= k < end ==> src[k] != 0xF7
  }

  lemma EndOfSysexExactly(src: seq<byte>, end: nat)
    requires 0xF7 in src
    ensures EndsAt(src, end) <==> end == EndOfSysex(src)
  {
    var n := EndOfSysex(src);
    assert forall k :: 0 <= k < n ==> src[..n][k] == src[k];
  }

  /** The position of the first 0xF7, which ends a MIDI 1.0 system exclusive message. */
  function EndOfSysex(src: seq<byte>): (n: nat)
    requires 0xF7 in src
    ensures n < |src| && src[n] == 0xF7 && 0xF7 !in src[..n]
  {
    if src[0] == 0xF7 then 0
    else
      var n := EndOfSysex(src[1..]);
      assert src[..n + 1] == [src[0]] + src[1..][..n];
      n + 1
  }

  /** The bytes between an optional leading 0xF0 and the first 0xF7. */
  function Payload(src: seq<byte>): seq<byte>
    requires 0xF7 in src
  {
    src[if src[0] == 0xF0 then 1 else 0..EndOfSysex(src)]
  }

  /** `cmidi2_ump_sysex7_get_sysex_length`. */
  method GetSysexLength(src: seq<byte>) returns (length: nat)
    requires 0xF7 in src
    ensures length == |Payload(src)|
    ensures exists end: nat :: EndsAt(src, end) && length == end - if src[0] == 0xF0 then 1 else 0
  {
    EndOfSysexExactly(src, EndOfSysex(src));
    var end := EndOfSysex(src);
    var i := 0;
    while src[i] != 0xF7
      invariant i <= end
      invariant forall k :: 0 <= k < end ==> src[..end][k] == src[k] != 0xF7
      decreases end - i
    {
      i := i + 1;
    }
    length := i - if src[0] == 0xF0 then 1 else 0;
  }

  lemma FirstPart(a: seq<byte>, b: seq<byte>)
    ensures (a + b)[..|a|] == a
  {
  }

  /** `cmidi2_ump_sysex7_get_packet_of`. `numBytes` is a byte. */
  method GetSysex7PacketOf(group: nat, numBytes: nat, src: seq<byte>, index: nat) returns (word: nat)
    requires 0xF7 in src && numBytes == |Payload(src)| % 256 && index < NumPackets(numBytes, 6)
    ensures Layout(8, word) ==
      Split(group, TYPE_SYSEX7, 6, [], 8, Payload(src)[..numBytes])[index]
  {
    var srcOffset := if numBytes > 0 && src[0] == 0xF0 then 1 else 0;
    var data := src[srcOffset..];
    assert data[..numBytes] == Payload(src)[..numBytes];
    var second;
    word, second := GetPacketOf(group, numBytes, data, index, TYPE_SYSEX7, 6, false, 0);
    FirstPart(Layout(8, word), Layout(8, second));
  }

  /** The packets whose words were sent, byte by byte. */
  function Laid7(words: seq<nat>): seq<seq<byte>> {
    LaidOut(8, words)
  }

  function LaidOut(n: nat, words: seq<nat>): seq<seq<byte>> {
    seq(|words|, i requires 0 <= i < |words| => Layout(n, words[i]))
  }

  lemma LaidOutNext(n: nat, words: seq<nat>, word: nat, ps: seq<seq<byte>>, p: nat)
    requires p < |ps| && LaidOut(n, words) == ps[..p] && Layout(n, word) == ps[p]
    ensures LaidOut(n, words + [word]) == ps[..p + 1]
  {
    assert LaidOut(n, words + [word]) == LaidOut(n, words) + [Layout(n, word)];
  }

  function Laid8(words: seq<(nat, nat)>): seq<seq<byte>> {
    seq(|words|, i requires 0 <= i < |words| => Layout(8, words[i].0) + Layout(8, words[i].1))
  }

  lemma Laid8Next(words: seq<(nat, nat)>, first: nat, second: nat, ps: seq<seq<byte>>, p: nat)
    requires p < |ps| && Laid8(words) == ps[..p] && Layout(8, first) + Layout(8, second) == ps[p]
    ensures Laid8(words + [(first, second)]) == ps[..p + 1]
  {
    assert Laid8(words + [(first, second)]) == Laid8(words) + [Layout(8, first) + Layout(8, second)];
  }

  /** `cmidi2_ump_sysex7_process`: the words handed to `sendUMP`, in order. The length is
      passed on as a byte. */
  method Sysex7Process(group: nat, src: seq<byte>) returns (sent: seq<nat>)
    requires 0xF7 in src
    ensures Laid7(sent) == Split(group, TYPE_SYSEX7, 6, [], 8, Payload(src)[..|Payload(src)| % 256])
    ensures Received(Laid7(sent), 0) == Some(Payload(src)) <==> |Payload(src)| <= 255
    ensures forall end: nat :: EndsAt(src, end) ==>
      var data := if src[0] == 0xF0 then src[1..end] else src[..end];
      OnWire(Laid7(sent), 3, group, [], 6, 8, data[..|data| % 256])
  {
    sent := SendSysex7(group, src);
    Sysex7Sent(group, src, Laid7(sent));
  }

  /** Its loop. */
  method SendSysex7(group: nat, src: seq<byte>) returns (sent: seq<nat>)
    requires 0xF7 in src
    ensures Laid7(sent) == Split(group, TYPE_SYSEX7, 6, [], 8, Payload(src)[..|Payload(src)| % 256])
  {
    var length := GetSysexLength(src);
    var numPackets := NumPackets(length % 256, 6);
    ghost var split := Split(group, TYPE_SYSEX7, 6, [], 8, Payload(src)[..length % 256]);
    sent := [];
    for p := 0 to numPackets
      invariant |sent| == p && Laid7(sent) == split[..p]
    {
      var word := GetSysex7PacketOf(group, length % 256, src, p);
      LaidOutNext(8, sent, word, split, p);
      sent := sent + [word];
    }
    assert split[..|split|] == split;
  }

  lemma Sysex7Sent(group: nat, src: seq<byte>, ps: seq<seq<byte>>)
    requires 0xF7 in src && ps == Split(group, TYPE_SYSEX7, 6, [], 8, Payload(src)[..|Payload(src)| % 256])
    ensures Received(ps, 0) == Some(Payload(src)) <==> |Payload(src)| <= 255
    ensures forall end: nat :: EndsAt(src, end) ==>
      var data := if src[0] == 0xF0 then src[1..end] else src[..end];
      OnWire(ps, 3, group, [], 6, 8, data[..|data| % 256])
  {
    Sysex7RoundTrip(group, src);
    Sysex7OnWire(group, src, ps);
  }

  lemma Sysex7OnWire(group: nat, src: seq<byte>, ps: seq<seq<byte>>)
    requires 0xF7 in src && ps == Split(group, TYPE_SYSEX7, 6, [], 8, Payload(src)[..|Payload(src)| % 256])
    ensures forall end: nat :: EndsAt(src, end) ==>
      var data := if src[0] == 0xF0 then src[1..end] else src[..end];
      OnWire(ps, 3, group, [], 6, 8, data[..|data| % 256])
  {
    SplitOnWire(group, TYPE_SYSEX7, 6, [], 8, Payload(src)[..|Payload(src)| % 256]);
    forall end: nat | EndsAt(src, end)
      ensures Payload(src) == if src[0] == 0xF0 then src[1..end] else src[..end]
    {
      EndOfSysexExactly(src, end);
    }
  }

  /** `cmidi2_ump_sysex8_process`. */
  method Sysex8Process(group: nat, src: seq<byte>, streamId: byte) returns (sent: seq<(nat, nat)>)
    ensures Laid8(sent) == Split(group, TYPE_SYSEX8, 13, [streamId], 16, src[..|src| % 256])
    ensures Received(Laid8(sent), 1) == Some(src) <==> |src| <= 255
    ensures OnWire(Laid8(sent), 5, group, [streamId], 13, 16, src[..|src| % 256])
  {
    sent := SendSysex8(group, src, streamId);
    Sysex8Sent(group, src, streamId, Laid8(sent));
  }

  /** Its loop. */
  method SendSysex8(group: nat, src: seq<byte>, streamId: byte) returns (sent: seq<(nat, nat)>)
    ensures Laid8(sent) == Split(group, TYPE_SYSEX8, 13, [streamId], 16, src[..|src| % 256])
  {
    var numPackets := NumPackets(|src| % 256, 13);
    ghost var split := Split(group, TYPE_SYSEX8, 13, [streamId], 16, src[..|src| % 256]);
    sent := [];
    for p := 0 to numPackets
      invariant |sent| == p && Laid8(sent) == split[..p]
    {
      var first, second := GetPacketOf(group, |src| % 256, src, p, TYPE_SYSEX8, 13, true, streamId);
      var packet := Layout(8, first) + Layout(8, second);
      assert packet[..16] == packet == split[p];
      Laid8Next(sent, first, second, split, p);
      sent := sent + [(first, second)];
    }
    assert split[..|split|] == split;
  }

  lemma Sysex8Sent(group: nat, src: seq<byte>, streamId: byte, ps: seq<seq<byte>>)
    requires ps == Split(group, TYPE_SYSEX8, 13, [streamId], 16, src[..|src| % 256])
    ensures Received(ps, 1) == Some(src) <==> |src| <= 255
    ensures OnWire(ps, 5, group, [streamId], 13, 16, src[..|src| % 256])
  {
    Sysex8RoundTrip(group, src, streamId);
    SplitOnWire(group, TYPE_SYSEX8, 13, [streamId], 16, src[..|src| % 256]);
  }

  lemma FittingPrefix(data: seq<byte>)
    ensures data[..|data| % 256] == data <==> |data| <= 255
  {
  }

  /** A SysEx7 message comes back whole exactly when its payload is at most 255 bytes;
      a longer one comes back cut to its length modulo 256. */
  lemma Sysex7RoundTrip(group: nat, src: seq<byte>)
    requires 0xF7 in src
    ensures var data := Payload(src);
      var got := Received(Split(group, TYPE_SYSEX7, 6, [], 8, data[..|data| % 256]), 0);
      got == Some(data[..|data| % 256]) && (got == Some(data) <==> |data| <= 255)
  {
    var data := Payload(src);
    SplitReceived(group, TYPE_SYSEX7, 6, [], 8, data[..|data| % 256]);
    FittingPrefix(data);
  }

  /** The same for SysEx8 and the bytes handed over, each packet carrying the stream id. */
  lemma Sysex8RoundTrip(group: nat, src: seq<byte>, streamId: byte)
    ensures var got := Received(Split(group, TYPE_SYSEX8, 13, [streamId], 16, src[..|src| % 256]), 1);
      got == Some(src[..|src| % 256]) && (got == Some(src) <==> |src| <= 255)
  {
    SplitReceived(group, TYPE_SYSEX8, 13, [streamId], 16, src[..|src| % 256]);
    FittingPrefix(src);
  }

  // `cmidi2_ump_sysex7_direct` (cmidi2.h:358-361).

  /** A byte shifted into the top of a C `int`: from 0x80 on the sum turns negative. */
  function SignedShift24(d: nat): int {
    if d < 0x80 then d * 0x100_0000 else d * 0x100_0000 - U32_MODULUS
  }

  /** The packet word, added up in 64-bit arithmetic as the source does. */
  function Direct(group: nat, status: nat, numBytes: nat, d: seq<byte>): nat
    requires |d| == 6
  {
    var header := TYPE_SYSEX7 * 0x1000_0000 + group % 16 * 0x100_0000 + (status + numBytes) * 0x1_0000;
    var d0: nat, d1: nat, d3: nat, d4: nat := d[0], d[1], d[3], d[4];
    (header * U32_MODULUS + d0 * 0x100_0000_0000 + d1 * U32_MODULUS
      + SignedShift24(d[2]) + d3 * 0x1_0000 + d4 * 0x100 + d[5]) % U64_MODULUS
  }

  /** `sysex7_direct` builds the splitter's packet, for any number of data bytes with
      zeros after them, exactly when the third one is a 7-bit byte; from 0x80 on its
      sign extension borrows from the bytes above. */
  lemma DirectMatchesSplitter(group: nat, status: nat, numBytes: nat, d: seq<byte>)
    requires |d| == 6 && status <= END && status % 16 == 0
    requires numBytes <= 6 && forall i :: numBytes <= i < 6 ==> d[i] == 0
    ensures var p := PacketBytes(group, TYPE_SYSEX7, [], status, d[..numBytes])[..8];
      Direct(group, status, numBytes, d) == if d[2] < 0x80 then Value(p) else Value(p) - U32_MODULUS
    ensures d[2] < 0x80 <==>
      Layout(8, Direct(group, status, numBytes, d)) == PacketBytes(group, TYPE_SYSEX7, [], status, d[..numBytes])[..8]
  {
    var p := PacketBytes(group, TYPE_SYSEX7, [], status, d[..numBytes])[..8];
    DirectValue(group, status, numBytes, d);
    LayoutOfValue(p);
    Pow256Values();
    ValueOfLayout(8, Direct(group, status, numBytes, d));
  }

  lemma DirectValue(group: nat, status: nat, numBytes: nat, d: seq<byte>)
    requires |d| == 6 && status <= END && status % 16 == 0
    requires numBytes <= 6 && forall i :: numBytes <= i < 6 ==> d[i] == 0
    ensures var p := PacketBytes(group, TYPE_SYSEX7, [], status, d[..numBytes])[..8];
      Direct(group, status, numBytes, d) == if d[2] < 0x80 then Value(p) else Value(p) - U32_MODULUS
  {
    var p := PacketBytes(group, TYPE_SYSEX7, [], status, d[..numBytes])[..8];
    assert p == [TYPE_SYSEX7 * 16 + group % 16, status + numBytes] + d;
    ValueOfEight(p);
  }
}
