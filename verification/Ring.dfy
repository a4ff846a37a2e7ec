/** `zix/ring.cpp`, used by one thread at a time: a circular byte buffer that
    behaves as a bounded first-in first-out queue. */
module Ring {
  import opened Bits
  import opened RingArithmetic
  import opened RingContents

  /** `memcpy` out of constant memory. */
  method CopyIn(buf: array<byte>, offset: nat, src: seq<byte>)
    requires offset + |src| <= buf.Length
    modifies buf
    ensures buf[..] == Store(old(buf[..]), offset, src)
  {
    forall i | 0 <= i < |src| {
      buf[offset + i] := src[i];
    }
  }

  /** `memcpy` between two buffers that do not overlap. */
  method CopyOut(buf: array<byte>, start: nat, count: nat, dst: array<byte>, offset: nat)
    requires start + count <= buf.Length && offset + count <= dst.Length && dst != buf
    modifies dst
    ensures dst[..] == Store(old(dst[..]), offset, buf[start..start + count])
  {
    forall i | 0 <= i < count {
      dst[offset + i] := buf[start + i];
    }
  }

  class ZixRing {
    var writeHead: nat
    var readHead: nat
    const size: nat
    const sizeMask: nat
    const buf: array<byte>

    ghost predicate Valid()
      reads this
    {
      && ValidSize(size)
      && sizeMask == size - 1
      && buf.Length == size
      && readHead < size
      && writeHead < size
    }

    ghost function Used(): (n: nat)
      reads this
      requires Valid()
      ensures n < size
    {
      Gap(readHead, writeHead, size)
    }

    /** The queue the ring represents. */
    ghost function Contents(): (q: seq<byte>)
      reads this, buf
      requires Valid()
      ensures |q| == Used() < size
    {
      Window(buf[..], readHead, Used())
    }

    /** `zix_ring_new`. */
    constructor (request: nat)
      requires request < U32_MODULUS
      ensures fresh(buf) && readHead == writeHead == 0
      ensures 1 <= request <= 0x8000_0000 ==> Valid() && IsLeastPow2(size, request) && Contents() == []
      ensures request == 0 || request > 0x8000_0000 ==> size == buf.Length == 0 && sizeMask == U32_MODULUS - 1
    {
      var s := NextPowerOfTwo(request);
      writeHead := 0;
      readHead := 0;
      size := s;
      sizeMask := Mask(s);
      buf := new byte[s];
      if 1 <= request <= 0x8000_0000 {
        ValidSizeBound(s);
      }
    }

    lemma SpacesOfHeads()
      requires Valid()
      ensures ReadSpace(size, readHead, writeHead) == Used()
      ensures WriteSpace(size, readHead, writeHead) == size - 1 - Used()
    {
      SpacesAreGaps(size, readHead, writeHead);
    }

    /** `zix_ring_read_space`. */
    method GetReadSpace() returns (n: nat)
      requires Valid()
      ensures n == |Contents()|
    {
      SpacesOfHeads();
      n := ReadSpace(size, readHead, writeHead);
    }

    /** `zix_ring_write_space`. */
    method GetWriteSpace() returns (n: nat)
      requires Valid()
      ensures n == size - 1 - |Contents()|
    {
      SpacesOfHeads();
      n := WriteSpace(size, readHead, writeHead);
    }

    /** `peek_internal`, called with the two heads the caller has loaded. */
    method PeekInternal(r: nat, w: nat, n: nat, dst: array<byte>) returns (got: nat)
      requires Valid() && r == readHead && w == writeHead
      requires n < U32_MODULUS && n <= dst.Length && dst != buf
      modifies dst
      ensures got == if n <= |Contents()| then n else 0
      ensures n <= |Contents()| ==> dst[..] == Store(old(dst[..]), 0, Contents()[..n])
      ensures n > |Contents()| ==> dst[..] == old(dst[..])
    {
      SpacesOfHeads();
      if ReadSpace(size, r, w) < n {
        return 0;
      }
      WindowSplit(buf[..], r, Used(), n);
      MaskedHead(r + n, size);
      CopyWindow(r, n, dst);
      return n;
    }

    /** The copying half of `peek_internal`: one piece, or two when the bytes run
        past the end of the buffer. */
    method CopyWindow(r: nat, n: nat, dst: array<byte>)
      requires buf.Length == size && r < size && n <= size && U32(r + n) == r + n
      requires n <= dst.Length && dst != buf
      modifies dst
      ensures dst[..] == Store(old(dst[..]), 0, Window(buf[..], r, n))
    {
      ghost var bytes, before := buf[..], dst[..];
      if U32(r + n) < size {
        CopyOut(buf, r, n, dst, 0);
        assert buf[r..r + n] == bytes[r..r + n] == Window(bytes, r, n);
      } else {
        var firstSize := size - r;
        CopyOut(buf, r, firstSize, dst, 0);
        CopyOut(buf, 0, n - firstSize, dst, firstSize);
        assert buf[r..r + firstSize] == bytes[r..] && buf[0..n - firstSize] == bytes[..n - firstSize];
        PeekedInTwo(bytes, before, r, n, dst[..]);
      }
      assert buf[..] == bytes;
    }

    static lemma PeekedInTwo(b: seq<byte>, d: seq<byte>, r: nat, n: nat, d': seq<byte>)
      requires r < |b| <= r + n && n <= |b| && n <= |d|
      requires d' == Store(Store(d, 0, b[r..]), |b| - r, b[..n - (|b| - r)])
      ensures d' == Store(d, 0, Window(b, r, n))
    {
      StoreAdjacent(d, b[r..], b[..n - (|b| - r)]);
      assert b[r..] + b[..n - (|b| - r)] == Window(b, r, n);
    }

    /** `zix_ring_peek`. */
    method Peek(dst: array<byte>, n: nat) returns (got: nat)
      requires Valid() && n < U32_MODULUS && n <= dst.Length && dst != buf
      modifies dst
      ensures Valid() && Contents() == old(Contents())
      ensures got == if n <= |Contents()| then n else 0
      ensures n <= |Contents()| ==> dst[..] == Store(old(dst[..]), 0, Contents()[..n])
      ensures n > |Contents()| ==> dst[..] == old(dst[..])
    {
      got := PeekInternal(readHead, writeHead, n, dst);
    }

    /** `zix_ring_read`. */
    method Read(dst: array<byte>, n: nat) returns (got: nat)
      requires Valid() && n < U32_MODULUS && n <= dst.Length && dst != buf
      modifies this`readHead, dst
      ensures Valid()
      ensures got == if n <= old(|Contents()|) then n else 0
      ensures n <= old(|Contents()|) ==>
        Contents() == old(Contents())[n..] && dst[..] == Store(old(dst[..]), 0, old(Contents())[..n])
      ensures n > old(|Contents()|) ==> Contents() == old(Contents()) && dst[..] == old(dst[..])
    {
      var r := readHead;
      var w := writeHead;
      var peeked := PeekInternal(r, w, n, dst);
      if peeked != 0 {
        AdvanceReadHead(r, n);
        return n;
      } else {
        return 0;
      }
    }

    /** What `zix_ring_read` and `zix_ring_skip` end with. */
    method AdvanceReadHead(r: nat, n: nat)
      requires Valid() && r == readHead && n <= |Contents()|
      modifies this`readHead
      ensures Valid() && Contents() == old(Contents())[n..]
    {
      MaskedHead(r + n, size);
      Consumed(buf[..], r, writeHead, n);
      readHead := BitAnd(U32(r + n), sizeMask);
    }

    /** `zix_ring_skip`. */
    method Skip(n: nat) returns (got: nat)
      requires Valid() && n < U32_MODULUS
      modifies this`readHead
      ensures Valid()
      ensures got == if n <= old(|Contents()|) then n else 0
      ensures Contents() == if n <= old(|Contents()|) then old(Contents())[n..] else old(Contents())
    {
      var r := readHead;
      var w := writeHead;
      SpacesOfHeads();
      if ReadSpace(size, r, w) < n {
        return 0;
      }
      AdvanceReadHead(r, n);
      return n;
    }

    /** `zix_ring_write`. The source buffer is constant, so it is a sequence here. */
    method Write(src: seq<byte>) returns (accepted: nat)
      requires Valid() && |src| < U32_MODULUS
      modifies this`writeHead, buf
      ensures Valid()
      ensures accepted == if old(|Contents()|) + |src| < size then |src| else 0
      ensures Contents() ==
        if old(|Contents()|) + |src| < size then old(Contents()) + src else old(Contents())
    {
      var r := readHead;
      var w := writeHead;
      SpacesOfHeads();
      if WriteSpace(size, r, w) < |src| {
        return 0;
      }
      ghost var before := buf[..];
      MaskedHead(w + |src|, size);
      CopyBehind(w, src);
      if U32(w + |src|) <= size {
        writeHead := BitAnd(U32(w + |src|), sizeMask);
      } else {
        writeHead := |src| - (size - w);
      }
      Appended(before, r, w, src);
      return |src|;
    }

    static lemma Appended(b: seq<byte>, r: nat, w: nat, src: seq<byte>)
      requires r < |b| && w < |b| && Gap(r, w, |b|) + |src| < |b|
      ensures var b', w' := Store(b, w, src), Wrap(w + |src|, |b|);
        && |b'| == |b| && w' < |b|
        && Window(b', r, Gap(r, w', |b|)) == Window(b, r, Gap(r, w, |b|)) + src
    {
      var g, w' := Gap(r, w, |b|), Wrap(w + |src|, |b|);
      assert w == Wrap(r + g, |b|);
      GapGrows(r, g, |src|, |b|);
      assert Gap(r, w', |b|) == g + |src|;
      StoreExtendsWindow(b, r, g, src);
    }

    /** The copying half of `zix_ring_write`: one piece, or two when the bytes run past
        the end of the buffer. */
    method CopyBehind(w: nat, src: seq<byte>)
      requires buf.Length == size && w < size && |src| <= size && U32(w + |src|) == w + |src|
      modifies buf
      ensures buf[..] == Store(old(buf[..]), w, src)
    {
      ghost var before := buf[..];
      if U32(w + |src|) <= size {
        CopyIn(buf, w, src);
      } else {
        var thisSize := size - w;
        CopyIn(buf, w, src[..thisSize]);
        CopyIn(buf, 0, src[thisSize..]);
        StoreWrapped(before, w, src);
      }
    }

    static lemma GapGrows(r: nat, used: nat, n: nat, size: nat)
      requires r < size && used + n < size
      ensures var w := Wrap(Wrap(r + used, size) + n, size);
        w < size && Gap(r, w, size) == used + n
    {
    }

    static lemma Consumed(b: seq<byte>, r: nat, w: nat, n: nat)
      requires r < |b| && w < |b| && n <= Gap(r, w, |b|)
      ensures var r' := Wrap(r + n, |b|);
        r' < |b| && Window(b, r', Gap(r', w, |b|)) == Window(b, r, Gap(r, w, |b|))[n..]
    {
      GapShrinks(r, w, n, |b|);
      WindowSplit(b, r, Gap(r, w, |b|), n);
    }

    static lemma GapShrinks(r: nat, w: nat, n: nat, size: nat)
      requires r < size && w < size && n <= Gap(r, w, size)
      ensures var r' := Wrap(r + n, size);
        r' < size && Gap(r', w, size) == Gap(r, w, size) - n
    {
    }
  }

  /** `zix_ring_peek` followed by `zix_ring_skip` for the same number of bytes promises
      what `zix_ring_read` does. */
  method PeekThenSkip(ring: ZixRing, dst: array<byte>, n: nat) returns (got: nat)
    requires ring.Valid() && n < U32_MODULUS && n <= dst.Length && dst != ring.buf
    modifies ring`readHead, dst
    ensures ring.Valid()
    ensures got == if n <= old(|ring.Contents()|) then n else 0
    ensures n <= old(|ring.Contents()|) ==>
      ring.Contents() == old(ring.Contents())[n..] && dst[..] == Store(old(dst[..]), 0, old(ring.Contents())[..n])
    ensures n > old(|ring.Contents()|) ==> ring.Contents() == old(ring.Contents()) && dst[..] == old(dst[..])
  {
    var peeked := ring.Peek(dst, n);
    got := ring.Skip(n);
  }
}
