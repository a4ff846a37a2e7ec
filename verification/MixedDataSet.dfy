/** Mixed Data Set messages (cmidi2.h:422-493, 687-710; section 4.6 of M2-104-UM): how
    the written splitter cuts data into chunks and payloads, when that covers the data,
    and a splitter with consistent constants that always does. */
module MixedDataSet {
  import opened Bits
  import opened BigEndian

  const PAYLOAD_BYTES: nat := 14
  const MAX_PAYLOADS: nat := 65535
  const MAX_CHUNK_BYTES: nat := 14 * 65535

  /** One payload packet: the source bytes it carries. */
  datatype Range = Range(chunk: nat, payload: nat, offset: nat, size: nat)

  /** `rs`, in order, cover `from`..`to` with no gap and no overlap. */
  predicate Tiles(rs: seq<Range>, from: nat, to: nat) {
    if rs == [] then from == to
    else rs[0].offset == from && Tiles(rs[1..], from + rs[0].size, to)
  }

  function TotalSize(rs: seq<Range>): nat {
    if rs == [] then 0 else rs[0].size + TotalSize(rs[1..])
  }

  lemma {:induction false} TilesAppend(a: seq<Range>, b: seq<Range>, from: nat, to: nat)
    requires Tiles(a, from, from + TotalSize(a))
    ensures Tiles(a + b, from, to) <==> Tiles(b, from + TotalSize(a), to)
    ensures TotalSize(a + b) == TotalSize(a) + TotalSize(b)
  {
    if a == [] {
      assert a + b == b;
    } else {
      assert (a + b)[1..] == a[1..] + b;
      TilesAppend(a[1..], b, from + a[0].size, to);
    }
  }

  /** No range reaches beyond `limit`. */
  predicate EndsBelow(rs: seq<Range>, limit: nat) {
    forall i :: 0 <= i < |rs| ==> rs[i].offset + rs[i].size <= limit
  }

  /** The bytes of the ranges, one after the other. */
  function Carried(rs: seq<Range>, mem: seq<byte>): seq<byte>
    requires EndsBelow(rs, |mem|)
  {
    if rs == [] then []
    else mem[rs[0].offset..rs[0].offset + rs[0].size] + Carried(rs[1..], mem)
  }

  /** Ranges that tile the data carry exactly the data. */
  lemma {:induction false} TilesCarryAll(rs: seq<Range>, mem: seq<byte>, from: nat, to: nat)
    requires EndsBelow(rs, |mem|)
    requires to <= |mem| && Tiles(rs, from, to)
    ensures from <= to && Carried(rs, mem) == mem[from..to]
  {
    if rs != [] {
      TilesCarryAll(rs[1..], mem, from + rs[0].size, to);
    }
  }

  // The written splitter.

  /** `mds_get_num_chunks`: it counts 0x10000 payloads to a chunk. */
  function NumChunks(length: nat): nat {
    length / (14 * 0x10000) + if length % (14 * 0x10000) != 0 then 1 else 0
  }

  /** `mds_get_num_payloads`. */
  function NumPayloads(chunkBytes: nat): int {
    if chunkBytes > 14 * 65535 then -1
    else chunkBytes / 14 + if chunkBytes % 14 != 0 then 1 else 0
  }

  function ChunkSize(length: nat, chunk: nat): nat {
    if chunk + 1 == NumChunks(length) then length % MAX_CHUNK_BYTES else MAX_CHUNK_BYTES
  }

  /** The bytes `mds_get_payload_of` copies; its byte count is 16 bits wide. */
  function PayloadSize(numBytes: nat): nat {
    if numBytes % 0x10000 < 14 then numBytes % 0x10000 else 14
  }

  /** The payload packets `mds_process` sends for one chunk, up to `count` of them. */
  function ChunkRanges(chunk: nat, size: nat, count: nat): (rs: seq<Range>)
    ensures |rs| == count
  {
    seq(count, p requires 0 <= p < count => Range(chunk, p, 14 * (65536 * chunk + p), size))
  }

  function ChunkSent(length: nat, chunk: nat): seq<Range>
    requires chunk < NumChunks(length)
  {
    var size := ChunkSize(length, chunk);
    ChunkRanges(chunk, PayloadSize(size), NumPayloads(size))
  }

  /** What `mds_process` sends for the first `chunks` chunks. */
  function Sent(length: nat, chunks: nat): seq<Range>
    requires chunks <= NumChunks(length)
  {
    if chunks == 0 then [] else Sent(length, chunks - 1) + ChunkSent(length, chunks - 1)
  }

  /** Status and data set id are added up in one byte, and the id is not masked. */
  function StatusByte(status: nat, mdsId: byte): byte {
    (status + mdsId) % 0x100
  }

  /** The sixteen bytes of a payload packet. */
  function PayloadBytes(group: nat, mdsId: byte, chunk: seq<byte>): (p: seq<byte>)
    requires |chunk| <= 14
    ensures |p| == 16
  {
    [0x50 + group % 16, StatusByte(0x90, mdsId)] + chunk + Zeros(14 - |chunk|)
  }

  /** The copying loop of `mds_get_payload_of`. */
  method FillPayload(dst8: array<byte>, src: seq<byte>, size: nat)
    requires dst8.Length == 16 && size <= 14 && size <= |src|
    modifies dst8
    ensures dst8[..] == old(dst8[..2]) + src[..size] + old(dst8[2 + size..])
  {
    ghost var before := dst8[..];
    for i := 0 to size
      invariant dst8[..2] == before[..2]
      invariant dst8[2..2 + i] == src[..i]
      invariant dst8[2 + i..] == before[2 + i..]
    {
      dst8[i + 2] := src[i];
    }
  }

  function Zeros(n: nat): (b: seq<byte>)
    ensures |b| == n
  {
    seq(n, _ => 0)
  }

  /** A packet with nothing behind its first two bytes. */
  function Blank(first: byte, second: byte): (p: seq<byte>)
    ensures |p| == 16
  {
    [first, second] + Zeros(14)
  }

  lemma BlankPacket(first: byte, second: byte, size: nat)
    requires size <= 14
    ensures Blank(first, second)[..2] == [first, second]
    ensures Blank(first, second)[2 + size..] == Zeros(14 - size)
  {
  }

  /** `memset` and the first two stores. */
  method NewPacket(first: byte, second: byte) returns (dst8: array<byte>)
    ensures fresh(dst8) && dst8.Length == 16 && dst8[..] == Blank(first, second)
  {
    dst8 := new byte[16](_ => 0);
    dst8[0], dst8[1] := first, second;
  }

  /** Type 5 and group; 9 and the data set id, added up; the data; and zeros. */
  predicate PayloadOnWire(p: seq<byte>, group: nat, mdsId: nat, data: seq<byte>) {
    && |p| == 16 >= 2 + |data|
    && p[0] == 5 * 16 + group % 16 && p[1] == (9 * 16 + mdsId) % 0x100
    && p[2..2 + |data|] == data
    && forall k :: 2 + |data| <= k < 16 ==> p[k] == 0
  }

  lemma PayloadNumbers(group: nat, mdsId: byte, data: seq<byte>)
    requires |data| <= 14
    ensures PayloadOnWire(PayloadBytes(group, mdsId, data), group, mdsId, data)
  {
  }

  /** Type 5 and group; 8 and the data set id, added up; and the fields, low byte first. */
  predicate HeaderOnWire(p: seq<byte>, group: nat, mdsId: nat, fields: seq<nat>) {
    && |p| == 16 == 2 + 2 * |fields|
    && p[0] == 5 * 16 + group % 16 && p[1] == (8 * 16 + mdsId) % 0x100
    && forall i :: 0 <= i < |fields| ==> p[2 + 2 * i] == fields[i] % 0x100 && p[3 + 2 * i] == fields[i] / 0x100
  }

  lemma HeaderNumbers(group: nat, mdsId: byte, fields: seq<nat>)
    requires |fields| == 7 && forall i :: 0 <= i < 7 ==> fields[i] < 0x10000
    ensures HeaderOnWire(HeaderBytes(group, mdsId, fields), group, mdsId, fields)
  {
    var p := HeaderBytes(group, mdsId, fields);
    forall i | 0 <= i < 7
      ensures p[2 + 2 * i] == fields[i] % 0x100 && p[3 + 2 * i] == fields[i] / 0x100
    {
      HostBytesAt(fields, i);
      assert p[2 + 2 * i..4 + 2 * i] == AllHostBytes(fields)[2 * i..2 * i + 2];
      assert p[2 + 2 * i] == p[2 + 2 * i..4 + 2 * i][0] && p[3 + 2 * i] == p[2 + 2 * i..4 + 2 * i][1];
    }
  }

  lemma SizeCopied(numBytes: nat)
    requires numBytes < 0x10000
    ensures (if numBytes < 14 then numBytes % 14 else 14) == PayloadSize(numBytes)
    ensures PayloadSize(numBytes) == if numBytes < 14 then numBytes else 14
  {
  }

  method FilledPacket(first: byte, second: byte, src: seq<byte>, size: nat) returns (dst8: array<byte>)
    requires size <= 14 && size <= |src|
    ensures fresh(dst8) && dst8[..] == [first, second] + src[..size] + Zeros(14 - size)
  {
    dst8 := NewPacket(first, second);
    BlankPacket(first, second, size);
    FillPayload(dst8, src, size);
  }

  lemma PayloadPacket(group: nat, mdsId: byte, chunk: seq<byte>)
    requires |chunk| <= 14
    ensures [5 * 16 + group % 16, StatusByte(0x90, mdsId)] + chunk + Zeros(14 - |chunk|)
      == PayloadBytes(group, mdsId, chunk)
  {
  }

  /** `mds_get_payload_of`. */
  method GetPayloadOf(group: nat, mdsId: byte, numBytes: nat, src: seq<byte>) returns (result1: nat, result2: nat)
    requires numBytes < 0x10000 && PayloadSize(numBytes) <= |src|
    ensures Layout(8, result1) + Layout(8, result2) == PayloadBytes(group, mdsId, src[..PayloadSize(numBytes)])
    ensures PayloadOnWire(Layout(8, result1) + Layout(8, result2), group, mdsId,
                          src[..if numBytes < 14 then numBytes else 14])
  {
    var size := if numBytes < 14 then numBytes % 14 else 14;
    SizeCopied(numBytes);
    PayloadNumbers(group, mdsId, src[..size]);
    var dst8 := FilledPacket(5 * 16 + group % 16, StatusByte(0x90, mdsId), src, size);
    PayloadPacket(group, mdsId, src[..size]);
    result1, result2 := ReadPacketWords(dst8[..]);
  }

  /** A packet handed to `sendUMP`. */
  datatype Packet = Packet(data1: nat, data2: nat, chunkId: nat, payloadId: nat)

  /** The packet carries the bytes of the range, and says which one it is. */
  predicate Carries(p: Packet, r: Range, group: nat, mdsId: byte, mem: seq<byte>)
  {
    && p.chunkId == r.chunk && p.payloadId == r.payload
    && r.size <= 14 && r.offset + r.size <= |mem|
    && Layout(8, p.data1) + Layout(8, p.data2) == PayloadBytes(group, mdsId, mem[r.offset..r.offset + r.size])
  }

  predicate AllCarry(ps: seq<Packet>, rs: seq<Range>, group: nat, mdsId: byte, mem: seq<byte>)
  {
    |ps| == |rs| && forall i :: 0 <= i < |ps| ==> Carries(ps[i], rs[i], group, mdsId, mem)
  }

  lemma SliceAt(mem: seq<byte>, offset: nat, size: nat)
    requires offset + size <= |mem|
    ensures mem[offset..][..size] == mem[offset..offset + size]
  {
  }

  /** One payload of `mds_process`. */
  method SendPayload(group: nat, mdsId: byte, mem: seq<byte>, chunkSize: nat, c: nat, p: nat) returns (packet: Packet)
    requires 14 * (65536 * c + p) + PayloadSize(chunkSize) <= |mem|
    ensures Carries(packet, Range(c, p, 14 * (65536 * c + p), PayloadSize(chunkSize)), group, mdsId, mem)
  {
    var offset := 14 * (65536 * c + p);
    var src := mem[offset..];
    var first, second := GetPayloadOf(group, mdsId, chunkSize % 0x10000, src);
    SliceAt(mem, offset, PayloadSize(chunkSize));
    packet := Packet(first, second, c, p);
  }

  /** The inner loop of `mds_process`. */
  method ProcessChunk(group: nat, mdsId: byte, mem: seq<byte>, length: nat, c: nat) returns (sent: seq<Packet>)
    requires c < NumChunks(length) && EndsBelow(ChunkSent(length, c), |mem|)
    ensures AllCarry(sent, ChunkSent(length, c), group, mdsId, mem)
  {
    ghost var rs := ChunkSent(length, c);
    var chunkSize := if c + 1 == NumChunks(length) then length % MAX_CHUNK_BYTES else MAX_CHUNK_BYTES;
    var numPayloads := NumPayloads(chunkSize);
    sent := [];
    for p := 0 to numPayloads
      invariant |sent| == p
      invariant forall i :: 0 <= i < p ==> Carries(sent[i], rs[i], group, mdsId, mem)
    {
      assert rs[p].offset + rs[p].size <= |mem|;
      var packet := SendPayload(group, mdsId, mem, chunkSize, c, p);
      sent := sent + [packet];
    }
  }

  /** `mds_process` on the `length` bytes at the head of `mem`; `mem` has to hold every
      byte it reads, which may be more than `length`. */
  method Process(group: nat, mdsId: byte, mem: seq<byte>, length: nat) returns (sent: seq<Packet>)
    requires EndsBelow(Sent(length, NumChunks(length)), |mem|)
    ensures AllCarry(sent, Sent(length, NumChunks(length)), group, mdsId, mem)
  {
    var numChunks := NumChunks(length);
    sent := [];
    for c := 0 to numChunks
      invariant AllCarry(sent, Sent(length, c), group, mdsId, mem)
    {
      SentInside(length, numChunks, |mem|);
      assert ChunkEndsBelow(length, c, |mem|);
      var packets := ProcessChunk(group, mdsId, mem, length, c);
      sent := sent + packets;
    }
  }

  lemma {:induction false} SentPrefix(length: nat, c: nat, n: nat)
    requires c <= n <= NumChunks(length)
    ensures Sent(length, c) <= Sent(length, n)
  {
    if c < n {
      SentPrefix(length, c, n - 1);
    }
  }

  lemma {:induction false} FullChunksBefore(length: nat, c: nat)
    requires c < NumChunks(length)
    ensures |Sent(length, c)| == 65535 * c
  {
    if c > 0 {
      FullChunksBefore(length, c - 1);
    }
  }

  lemma ChunkAt(length: nat, c: nat, p: nat)
    requires c < NumChunks(length) && p < NumPayloads(ChunkSize(length, c))
    ensures 65535 * c + p < |Sent(length, NumChunks(length))|
    ensures Sent(length, NumChunks(length))[65535 * c + p]
      == Range(c, p, 14 * (65536 * c + p), PayloadSize(ChunkSize(length, c)))
  {
    FullChunksBefore(length, c);
    SentPrefix(length, c + 1, NumChunks(length));
    assert Sent(length, c + 1)[65535 * c + p] == ChunkSent(length, c)[p];
  }

  /** How many payloads are sent, and which bytes each of them carries, in numbers: every
      chunk but the last has 65535 of them, of 14 bytes each; what the last has follows from
      the length modulo 14 * 65535. */
  lemma SentInNumbers(length: nat, i: nat)
    ensures var sent, chunks, rest := Sent(length, NumChunks(length)), (length + 917503) / 917504, length % 917490;
      && |sent| == (if length == 0 then 0 else 65535 * (chunks - 1) + (rest + 13) / 14)
      && (i < |sent| ==>
            sent[i] == Range(i / 65535, i % 65535, 14 * (65536 * (i / 65535) + i % 65535),
                             if i / 65535 + 1 < chunks then 14 else if rest % 65536 < 14 then rest % 65536 else 14))
  {
    ChunkCount(length);
    var chunks := NumChunks(length);
    if length > 0 {
      FullChunksBefore(length, chunks - 1);
      PayloadCount(length % 917490);
      if i < |Sent(length, chunks)| {
        ChunkOfIndex(i, chunks - 1, NumPayloads(length % 917490));
        ChunkAt(length, i / 65535, i % 65535);
      }
    }
  }

  lemma ChunkCount(length: nat)
    ensures NumChunks(length) == (length + 917503) / 917504
  {
  }

  /** A chunk of up to 65535 payloads has as many as its bytes need; a longer one is reported
      as -1. */
  lemma PayloadCount(bytes: nat)
    ensures NumPayloads(bytes) == if bytes <= 917490 then (bytes + 13) / 14 else -1
    ensures NumPayloads(bytes) <= 65535
  {
  }

  lemma ChunkOfIndex(i: nat, full: nat, last: nat)
    requires i < 65535 * full + last && last <= 65535
    ensures i / 65535 < full || (i / 65535 == full && i % 65535 < last)
  {
  }

  // When the written splitter covers the data.

  /** Payloads of one size, 14 bytes apart, tile exactly if there is one of the right
      size or they are full. */
  lemma {:induction false} UniformTiles(chunk: nat, size: nat, count: nat, first: nat, to: nat)
    requires first <= count
    ensures Tiles(ChunkRanges(chunk, size, count)[first..], 14 * (65536 * chunk + first), to) <==>
      if first == count then to == 14 * (65536 * chunk + first)
      else if first + 1 == count then to == 14 * (65536 * chunk + first) + size
      else size == 14 && to == 14 * (65536 * chunk + count)
    decreases count - first
  {
    var rs := ChunkRanges(chunk, size, count);
    if first < count {
      assert rs[first..][0] == rs[first] && rs[first..][1..] == rs[first + 1..];
      if size == 14 || first + 1 == count {
        UniformTiles(chunk, size, count, first + 1, to);
      } else {
        assert rs[first + 1..][0] == rs[first + 1];
      }
      if first + 1 == count {
        assert rs[first + 1..] == [];
      }
    }
  }

  /** The lengths the written splitter gets right: below one full chunk, and either less
      than a payload or whole payloads whose byte count does not look small in 16 bits. */
  predicate Covered(length: nat) {
    length < MAX_CHUNK_BYTES && (length < 14 || (length % 14 == 0 && length % 0x10000 >= 14))
  }

  lemma OneChunkSizes(length: nat)
    requires 0 < length <= 14 * 0x10000
    ensures var bytes := length % MAX_CHUNK_BYTES;
      var count, size := NumPayloads(bytes), PayloadSize(bytes);
      && count >= 0
      && Covered(length) == (if count == 0 then length == 0 else if count == 1 then length == size
                             else size == 14 && length == 14 * count)
  {
    if length < MAX_CHUNK_BYTES {
      assert length % MAX_CHUNK_BYTES == length;
    } else {
      assert length % MAX_CHUNK_BYTES == length - MAX_CHUNK_BYTES;
    }
  }

  lemma OneChunk(length: nat)
    requires 0 < length <= 14 * 0x10000
    ensures Tiles(Sent(length, NumChunks(length)), 0, length) <==> Covered(length)
  {
    assert NumChunks(length) == 1;
    assert Sent(length, 0) == [] && Sent(length, 1) == ChunkSent(length, 0);
    var bytes := length % MAX_CHUNK_BYTES;
    OneChunkSizes(length);
    UniformTiles(0, PayloadSize(bytes), NumPayloads(bytes), 0, length);
    assert ChunkSent(length, 0)[0..] == ChunkSent(length, 0);
  }

  lemma {:induction false} LaterOffsets(length: nat, n: nat)
    requires 1 <= n <= NumChunks(length)
    ensures |Sent(length, 1)| <= |Sent(length, n)| && Sent(length, 1) <= Sent(length, n)
    ensures forall i :: |Sent(length, 1)| <= i < |Sent(length, n)| ==> Sent(length, n)[i].offset >= 14 * 65536
  {
    if n > 1 {
      LaterOffsets(length, n - 1);
    }
  }

  lemma SeveralChunks(length: nat)
    requires length > 14 * 0x10000
    ensures !Tiles(Sent(length, NumChunks(length)), 0, length)
  {
    var n := NumChunks(length);
    var all := Sent(length, n);
    var a := ChunkSent(length, 0);
    assert ChunkSize(length, 0) == MAX_CHUNK_BYTES && PayloadSize(MAX_CHUNK_BYTES) == 14;
    assert NumPayloads(MAX_CHUNK_BYTES) == MAX_PAYLOADS;
    assert Sent(length, 0) == [] && Sent(length, 1) == a && a[0..] == a;
    LaterOffsets(length, n);
    var b := all[|a|..];
    assert all == a + b;
    UniformTiles(0, 14, MAX_PAYLOADS, 0, MAX_CHUNK_BYTES);
    TilesTotal(a, 0, MAX_CHUNK_BYTES);
    TilesAppend(a, b, 0, length);
    if b != [] {
      assert b[0] == all[|a|];
    }
  }

  lemma {:induction false} TilesTotal(rs: seq<Range>, from: nat, to: nat)
    requires Tiles(rs, from, to)
    ensures to == from + TotalSize(rs)
  {
    if rs != [] {
      TilesTotal(rs[1..], from + rs[0].size, to);
    }
  }

  /** The payloads the written code sends cover the data exactly for these lengths: the
      chunk constants disagree from one chunk on, the last payload of a chunk is not cut
      to what is left, and a byte count just above a multiple of 65536 reads as tiny. */
  lemma WrittenTilesExactly(length: nat)
    ensures Tiles(Sent(length, NumChunks(length)), 0, length) <==> Covered(length)
  {
    if length == 0 {
      assert Sent(length, 0) == [];
    } else if length <= 14 * 0x10000 {
      OneChunk(length);
    } else {
      SeveralChunks(length);
    }
  }

  // What the written splitter reads.

  /** Where the last payload of the last chunk ends; the ends of all the others are below. */
  function LastEnd(length: nat): nat
    requires length % MAX_CHUNK_BYTES != 0
  {
    var bytes := length % MAX_CHUNK_BYTES;
    14 * (65536 * (NumChunks(length) - 1) + NumPayloads(bytes) - 1) + PayloadSize(bytes)
  }

  /** The last chunk is empty, or its last payload ends with the data at the latest. */
  predicate LastEndInside(length: nat) {
    length % MAX_CHUNK_BYTES == 0 || LastEnd(length) <= length
  }

  /** Every byte the code reads for `length` bytes of data belongs to them. */
  predicate ReadsInside(length: nat) {
    EndsBelow(Sent(length, NumChunks(length)), length)
  }

  lemma EarlierChunkInside(length: nat, c: nat)
    requires c + 1 < NumChunks(length)
    ensures ChunkEndsBelow(length, c, length)
  {
    assert ChunkSize(length, c) == MAX_CHUNK_BYTES && NumPayloads(MAX_CHUNK_BYTES) == MAX_PAYLOADS;
    assert 14 * 0x10000 * (c + 1) < length;
  }

  lemma LastChunkInside(length: nat)
    requires length > 0
    ensures ChunkEndsBelow(length, NumChunks(length) - 1, length) <==> LastEndInside(length)
  {
    var rs := ChunkSent(length, NumChunks(length) - 1);
    if length % MAX_CHUNK_BYTES != 0 {
      assert rs != [] && rs[|rs| - 1].offset + rs[|rs| - 1].size == LastEnd(length);
    }
  }

  predicate ChunkEndsBelow(length: nat, c: nat, limit: nat)
    requires c < NumChunks(length)
  {
    EndsBelow(ChunkSent(length, c), limit)
  }

  /** All ranges end at or below `limit` exactly when those of every chunk do. */
  lemma {:induction false} SentInside(length: nat, n: nat, limit: nat)
    requires n <= NumChunks(length)
    ensures EndsBelow(Sent(length, n), limit) <==> forall c :: 0 <= c < n ==> ChunkEndsBelow(length, c, limit)
  {
    if n > 0 {
      SentInside(length, n - 1, limit);
      EndsBelowBoth(Sent(length, n - 1), ChunkSent(length, n - 1), limit);
      assert ChunkEndsBelow(length, n - 1, limit) == EndsBelow(ChunkSent(length, n - 1), limit);
    }
  }

  lemma EndsBelowBoth(a: seq<Range>, b: seq<Range>, limit: nat)
    ensures EndsBelow(a + b, limit) <==> EndsBelow(a, limit) && EndsBelow(b, limit)
  {
    if EndsBelow(a + b, limit) {
      assert forall i :: 0 <= i < |a| ==> (a + b)[i] == a[i];
      assert forall i :: 0 <= i < |b| ==> (a + b)[|a| + i] == b[i];
    }
  }

  lemma LastChunkDecides(length: nat)
    requires length > 0
    ensures EndsBelow(Sent(length, NumChunks(length)), length)
      <==> ChunkEndsBelow(length, NumChunks(length) - 1, length)
  {
    var n := NumChunks(length);
    SentInside(length, n, length);
    forall c | 0 <= c < n - 1
      ensures ChunkEndsBelow(length, c, length)
    {
      EarlierChunkInside(length, c);
    }
  }

  lemma NothingSent()
    ensures ReadsInside(0) && LastEndInside(0)
  {
    assert NumChunks(0) == 0 && Sent(0, 0) == [];
  }

  /** For every length, the code stays inside the data exactly when the last payload of
      its last chunk does: it is never cut to what is left. */
  lemma ReadsInsideExactly(length: nat)
    ensures ReadsInside(length) <==> LastEndInside(length)
  {
    if length > 0 {
      LastChunkDecides(length);
      LastChunkInside(length);
    } else {
      NothingSent();
    }
  }

  /** The lengths for which nothing past the data is read. Below one full chunk: whole
      payloads, or a rest that 16 bits take for the whole count. Above: the last chunk gets
      no more than the bytes by which its size is counted too large, or, once, payloads of
      no bytes. */
  predicate StaysInside(length: nat) {
    if length < MAX_CHUNK_BYTES then length % 14 == 0 || length % 0x10000 <= length % 14
    else MAX_CHUNK_BYTES * ((length - 1) / (14 * 0x10000) + 1) <= length || length == 1376242
  }

  lemma InsideOneChunk(length: nat)
    requires 0 < length < MAX_CHUNK_BYTES
    ensures LastEndInside(length) <==> StaysInside(length)
  {
    assert NumChunks(length) == 1 && length % MAX_CHUNK_BYTES == length;
    assert NumPayloads(length) - 1 == if length % 14 == 0 then length / 14 - 1 else length / 14;
  }

  /** The last of `q + 1` chunks is counted from `14 * q` bytes too early. */
  lemma InsideLastChunk(length: nat, q: nat, left: nat)
    requires 1 <= left <= 14 * 0x10000 && length == 14 * 0x10000 * q + left
    requires q < 65534 && length >= MAX_CHUNK_BYTES
    ensures NumChunks(length) == q + 1 && (length - 1) / (14 * 0x10000) == q
    ensures LastEndInside(length) <==> StaysInside(length)
  {
    ChunksCounted(length, q, left);
    if length >= MAX_CHUNK_BYTES * (q + 1) {
      FewLeft(length, q, left, length - MAX_CHUNK_BYTES * (q + 1));
    } else {
      ManyLeft(length, q, left, length - MAX_CHUNK_BYTES * q);
    }
  }

  lemma FewLeft(length: nat, q: nat, left: nat, bytes: nat)
    requires length == 14 * 0x10000 * q + left == MAX_CHUNK_BYTES * (q + 1) + bytes
    requires left <= 14 * 0x10000 && q < 65534 && NumChunks(length) == q + 1
    ensures LastEndInside(length)
  {
    ModOf(q + 1, bytes, MAX_CHUNK_BYTES);
    SmallRest(bytes, left);
    LastEndOf(length, q, bytes);
  }

  lemma ManyLeft(length: nat, q: nat, left: nat, bytes: nat)
    requires length == 14 * 0x10000 * q + left == MAX_CHUNK_BYTES * q + bytes
    requires left >= 1 && q >= 1 && bytes < MAX_CHUNK_BYTES && NumChunks(length) == q + 1
    ensures LastEndInside(length) <==> length == 1376242
  {
    ModOf(q, bytes, MAX_CHUNK_BYTES);
    LargeRest(bytes, q, left);
    LastEndOf(length, q, bytes);
  }

  lemma LastEndOf(length: nat, q: nat, bytes: nat)
    requires NumChunks(length) == q + 1 && length % MAX_CHUNK_BYTES == bytes
    ensures LastEndInside(length)
      <==> bytes == 0 || 14 * 0x10000 * q + 14 * (NumPayloads(bytes) - 1) + PayloadSize(bytes) <= length
  {
  }

  lemma ChunksCounted(length: nat, q: nat, left: nat)
    requires 1 <= left <= 14 * 0x10000 && length == 14 * 0x10000 * q + left
    ensures NumChunks(length) == q + 1 && (length - 1) / (14 * 0x10000) == q
  {
    if left == 14 * 0x10000 {
      assert length == 14 * 0x10000 * (q + 1);
    }
  }

  lemma SmallRest(bytes: nat, left: nat)
    requires bytes <= 14 * 65535 && bytes + 14 <= left
    ensures 14 * (NumPayloads(bytes) - 1) + PayloadSize(bytes) <= left
  {
  }

  lemma LargeRest(bytes: nat, q: nat, left: nat)
    requires 0 < bytes < MAX_CHUNK_BYTES && bytes == 14 * q + left && q >= 1 && left >= 1
    ensures 14 * (NumPayloads(bytes) - 1) + PayloadSize(bytes) <= left <==> (q == 1 && left == 458738)
  {
    if q == 1 && PayloadSize(bytes) == 0 && left % 14 == 0 {
      assert bytes == 7 * 0x10000;
    }
  }

  lemma InsideLengths(length: nat)
    requires length < U32_MODULUS
    ensures LastEndInside(length) <==> StaysInside(length)
  {
    if 0 < length < MAX_CHUNK_BYTES {
      InsideOneChunk(length);
    } else if length > 0 {
      var q, before := (length - 1) / (14 * 0x10000), (length - 1) % (14 * 0x10000);
      assert length - 1 == 14 * 0x10000 * q + before;
      InsideLastChunk(length, q, before + 1);
    }
  }

  /** In those words, for every length that the 32 bits of the argument hold. */
  lemma ReadsInsideLengths(length: nat)
    requires length < U32_MODULUS
    ensures ReadsInside(length) <==> StaysInside(length)
  {
    ReadsInsideExactly(length);
    InsideLengths(length);
  }

  /** Fifteen bytes are read as twenty-eight; 65537 bytes are not all sent, but the code
      reads nothing past them. */
  lemma ReadingPastTheEnd()
    ensures LastEnd(15) == 28 && !ReadsInside(15)
    ensures !Covered(65537) && ReadsInside(65537)
  {
    ReadsInsideLengths(15);
    ReadsInsideLengths(65537);
    LastEnds();
  }

  lemma LastEnds()
    ensures LastEnd(15) == 28 && LastEnd(65537) == 65535
  {
    assert NumChunks(15) == 1 && NumPayloads(15) == 2;
    assert NumChunks(65537) == 1 && NumPayloads(65537) == 4682;
  }

  // A splitter with consistent constants.

  /** Payload `j` of the whole message: 65535 payloads to a chunk, the last one cut. */
  function IntendedRange(length: nat, j: nat): Range
    requires 14 * j < length
  {
    Range(j / MAX_PAYLOADS, j % MAX_PAYLOADS, 14 * j, if length - 14 * j < 14 then length - 14 * j else 14)
  }

  function Intended(length: nat, from: nat): seq<Range>
    requires 14 * from < length + 14
    decreases length + 14 - 14 * from
  {
    if 14 * from >= length then [] else [IntendedRange(length, from)] + Intended(length, from + 1)
  }

  lemma {:induction false} IntendedFrom(length: nat, from: nat)
    requires 14 * from < length + 14
    ensures Tiles(Intended(length, from), if 14 * from < length then 14 * from else length, length)
    ensures forall i :: 0 <= i < |Intended(length, from)| ==>
      && 1 <= Intended(length, from)[i].size <= PAYLOAD_BYTES
      && Intended(length, from)[i].payload < MAX_PAYLOADS
      && Intended(length, from)[i].offset
           == MAX_CHUNK_BYTES * Intended(length, from)[i].chunk + 14 * Intended(length, from)[i].payload
    decreases length + 14 - 14 * from
  {
    if 14 * from < length {
      IntendedFrom(length, from + 1);
      var rest := Intended(length, from + 1);
      assert Intended(length, from)[1..] == rest;
    }
  }

  /** With one chunk size throughout, every length is covered, no payload is empty or
      above 14 bytes, and no chunk has more than 65535 of them. */
  lemma IntendedTiles(length: nat)
    ensures Tiles(Intended(length, 0), 0, length)
    ensures forall i :: 0 <= i < |Intended(length, 0)| ==>
      && 1 <= Intended(length, 0)[i].size <= PAYLOAD_BYTES
      && Intended(length, 0)[i].payload < MAX_PAYLOADS
      && Intended(length, 0)[i].offset
           == MAX_CHUNK_BYTES * Intended(length, 0)[i].chunk + 14 * Intended(length, 0)[i].payload
  {
    IntendedFrom(length, 0);
  }

  // Headers.

  /** A 16-bit field as a little-endian host stores it, and as the getters read it. */
  function HostBytes(v: nat): (b: seq<byte>)
    requires v < 0x10000
    ensures |b| == 2
  {
    [v % 0x100, v / 0x100]
  }

  function GetField(p: seq<byte>, at: nat): nat
    requires at + 2 <= |p|
  {
    Value(p[at..at + 2])
  }

  function AllHostBytes(fields: seq<nat>): (b: seq<byte>)
    requires forall i :: 0 <= i < |fields| ==> fields[i] < 0x10000
    ensures |b| == 2 * |fields|
  {
    if fields == [] then []
    else AllHostBytes(fields[..|fields| - 1]) + HostBytes(fields[|fields| - 1])
  }

  lemma {:induction false} HostBytesAt(fields: seq<nat>, i: nat)
    requires i < |fields| && forall k :: 0 <= k < |fields| ==> fields[k] < 0x10000
    ensures AllHostBytes(fields)[2 * i..2 * i + 2] == HostBytes(fields[i])
  {
    var n := |fields| - 1;
    var front, last := AllHostBytes(fields[..n]), HostBytes(fields[n]);
    if i < n {
      HostBytesAt(fields[..n], i);
      assert (front + last)[2 * i..2 * i + 2] == front[2 * i..2 * i + 2];
    } else {
      assert (front + last)[2 * i..2 * i + 2] == last;
    }
  }

  /** The sixteen bytes of a header packet for the seven 16-bit fields: chunk bytes,
      number of chunks, chunk index, manufacturer, device, sub id and sub id 2. */
  function HeaderBytes(group: nat, mdsId: byte, fields: seq<nat>): (p: seq<byte>)
    requires |fields| == 7 && forall i :: 0 <= i < 7 ==> fields[i] < 0x10000
    ensures |p| == 16
  {
    [0x50 + group % 16, StatusByte(0x80, mdsId)] + AllHostBytes(fields)
  }

  /** The seven stores of `mds_get_header`. */
  method FillFields(dst8: array<byte>, fields: seq<nat>)
    requires dst8.Length == 2 + 2 * |fields| && forall i :: 0 <= i < |fields| ==> fields[i] < 0x10000
    modifies dst8
    ensures dst8[..] == old(dst8[..2]) + AllHostBytes(fields)
  {
    ghost var head := dst8[..2];
    for i := 0 to |fields|
      invariant dst8[..2 + 2 * i] == head + AllHostBytes(fields[..i])
    {
      assert fields[..i + 1][..i] == fields[..i];
      ghost var done := dst8[..2 + 2 * i];
      dst8[2 + 2 * i], dst8[3 + 2 * i] := fields[i] % 0x100, fields[i] / 0x100;
      assert dst8[..4 + 2 * i] == done + HostBytes(fields[i]);
    }
    assert fields[..|fields|] == fields && dst8[..dst8.Length] == dst8[..];
  }

  /** `mds_get_header` on a little-endian host. */
  method GetHeader(group: nat, mdsId: byte, fields: seq<nat>) returns (result1: nat, result2: nat)
    requires |fields| == 7 && forall i :: 0 <= i < 7 ==> fields[i] < 0x10000
    ensures Layout(8, result1) + Layout(8, result2) == HeaderBytes(group, mdsId, fields)
    ensures HeaderOnWire(Layout(8, result1) + Layout(8, result2), group, mdsId, fields)
  {
    HeaderNumbers(group, mdsId, fields);
    var dst8 := NewPacket(5 * 16 + group % 16, StatusByte(0x80, mdsId));
    BlankPacket(5 * 16 + group % 16, StatusByte(0x80, mdsId), 0);
    FillFields(dst8, fields);
    result1, result2 := ReadPacketWords(dst8[..]);
  }

  /** `get_status_code` and `get_mds_mds_id` on the second byte of a packet. */
  function StatusCode(p: seq<byte>): nat
    requires |p| >= 2
  {
    p[1] - p[1] % 16
  }

  function MdsId(p: seq<byte>): nat
    requires |p| >= 2
  {
    p[1] % 16
  }

  /** Status and data set id of headers and payloads read back exactly for ids below 16;
      a header with id 16 reads as a payload. */
  lemma MdsIdRoundTrip(group: nat, mdsId: byte, fields: seq<nat>, chunk: seq<byte>)
    requires |fields| == 7 && forall i :: 0 <= i < 7 ==> fields[i] < 0x10000
    requires |chunk| <= 14
    ensures var p := HeaderBytes(group, mdsId, fields);
      StatusCode(p) == 0x80 && MdsId(p) == mdsId <==> mdsId < 16
    ensures var p := PayloadBytes(group, mdsId, chunk);
      StatusCode(p) == 0x90 && MdsId(p) == mdsId <==> mdsId < 16
    ensures mdsId == 16 ==> StatusCode(HeaderBytes(group, mdsId, fields)) == 0x90
  {
    assert HeaderBytes(group, mdsId, fields)[1] == StatusByte(0x80, mdsId);
    assert PayloadBytes(group, mdsId, chunk)[1] == StatusByte(0x90, mdsId);
  }

  /** A header getter returns the field the constructor was given exactly when the
      field's two bytes are equal: one side is host order, the other big-endian. */
  lemma HeaderFieldRoundTrip(group: nat, mdsId: byte, fields: seq<nat>, i: nat)
    requires |fields| == 7 && forall k :: 0 <= k < 7 ==> fields[k] < 0x10000
    requires i < 7
    ensures GetField(HeaderBytes(group, mdsId, fields), 2 + 2 * i) == fields[i]
      <==> fields[i] / 0x100 == fields[i] % 0x100
  {
    var p := HeaderBytes(group, mdsId, fields);
    var pair := p[2 + 2 * i..2 + 2 * i + 2];
    HostBytesAt(fields, i);
    assert pair == AllHostBytes(fields)[2 * i..2 * i + 2];
    assert pair[..2] == pair && pair[..0] == [];
    ValueStep(pair, 0);
    ValueStep(pair, 1);
  }
}
