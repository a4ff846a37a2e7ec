/** A circular byte buffer seen as a sequence: what a window of it holds, and what
    a wrapping store does to that window. */
module RingContents {
  import opened Bits
  import opened RingArithmetic

  /** The `n` bytes of `b` from position `r` on, continuing at position 0. */
  function Window(b: seq<byte>, r: nat, n: nat): (bytes: seq<byte>)
    requires r <= |b| && n <= |b|
    ensures |bytes| == n
  {
    if r + n <= |b| then b[r..r + n] else b[r..] + b[..r + n - |b|]
  }

  lemma WindowAt(b: seq<byte>, r: nat, n: nat, i: nat)
    requires r <= |b| && i < n <= |b|
    ensures Window(b, r, n)[i] == b[Wrap(r + i, |b|)]
  {
  }

  /** `b` with `src` stored from position `w` on, continuing at position 0. */
  function Store(b: seq<byte>, w: nat, src: seq<byte>): seq<byte>
    requires w <= |b| && |src| <= |b|
  {
    if w + |src| <= |b| then b[..w] + src + b[w + |src|..]
    else
      var k := |b| - w;
      src[k..] + b[|src| - k..w] + src[..k]
  }

  /** The byte a store leaves at position `j`. */
  function StoredByte(b: seq<byte>, w: nat, src: seq<byte>, j: nat): byte
    requires w <= |b| && |src| <= |b| && j < |b|
  {
    if w <= j < w + |src| then src[j - w]
    else if j + |b| < w + |src| then src[j + |b| - w]
    else b[j]
  }

  lemma StoreAt(b: seq<byte>, w: nat, src: seq<byte>, j: nat)
    requires w <= |b| && |src| <= |b| && j < |b|
    ensures |Store(b, w, src)| == |b|
    ensures Store(b, w, src)[j] == StoredByte(b, w, src, j)
  {
    if w + |src| <= |b| {
      ThreeParts(b[..w], src, b[w + |src|..], j);
    } else {
      var k := |b| - w;
      ThreeParts(src[k..], b[|src| - k..w], src[..k], j);
    }
  }

  lemma ThreeParts(x: seq<byte>, y: seq<byte>, z: seq<byte>, j: nat)
    requires j < |x| + |y| + |z|
    ensures |x + y + z| == |x| + |y| + |z|
    ensures (x + y + z)[j] ==
      if j < |x| then x[j] else if j < |x| + |y| then y[j - |x|] else z[j - |x| - |y|]
  {
  }

  /** The two stores of a wrapping write: up to the end of the buffer, then from
      its beginning. */
  lemma StoreWrapped(b: seq<byte>, w: nat, src: seq<byte>)
    requires w <= |b| < w + |src| && |src| <= |b|
    ensures var k := |b| - w;
      Store(Store(b, w, src[..k]), 0, src[k..]) == Store(b, w, src)
  {
  }

  /** Two adjacent stores are one store. */
  lemma StoreAdjacent(b: seq<byte>, s: seq<byte>, t: seq<byte>)
    requires |s| + |t| <= |b|
    ensures Store(Store(b, 0, s), |s|, t) == Store(b, 0, s + t)
  {
  }

  lemma ExtendedAt(b: seq<byte>, b': seq<byte>, r: nat, n: nat, src: seq<byte>, i: nat)
    requires r < |b| == |b'| && n + |src| <= |b| && i < n + |src|
    requires b'[Wrap(r + i, |b|)] == StoredByte(b, Wrap(r + n, |b|), src, Wrap(r + i, |b|))
    ensures Window(b', r, n + |src|)[i] == (Window(b, r, n) + src)[i]
  {
    WindowAt(b', r, n + |src|, i);
    if i < n {
      WindowAt(b, r, n, i);
    }
  }

  /** A store just behind a window extends the window by the bytes stored. */
  lemma {:induction false} StoreExtendsWindow(b: seq<byte>, r: nat, n: nat, src: seq<byte>)
    requires r < |b| && n + |src| <= |b|
    ensures var b' := Store(b, Wrap(r + n, |b|), src);
      |b'| == |b| && Window(b', r, n + |src|) == Window(b, r, n) + src
  {
    var w := Wrap(r + n, |b|);
    var b' := Store(b, w, src);
    StoreAt(b, w, src, 0);
    var whole, parts := Window(b', r, n + |src|), Window(b, r, n) + src;
    assert |whole| == |parts|;
    forall i | 0 <= i < |whole|
      ensures whole[i] == parts[i]
    {
      StoreAt(b, w, src, Wrap(r + i, |b|));
      ExtendedAt(b, b', r, n, src, i);
    }
  }

  /** Moving the start of a window past its first `k` bytes drops them. */
  lemma WindowSplit(b: seq<byte>, r: nat, n: nat, k: nat)
    requires r < |b| && k <= n <= |b|
    ensures Window(b, r, n)[..k] == Window(b, r, k)
    ensures Window(b, r, n)[k..] == Window(b, Wrap(r + k, |b|), n - k)
  {
    WindowFront(b, r, n, k);
    WindowRest(b, r, n, k);
  }

  lemma WindowFront(b: seq<byte>, r: nat, n: nat, k: nat)
    requires r < |b| && k <= n <= |b|
    ensures Window(b, r, n)[..k] == Window(b, r, k)
  {
    var whole, front := Window(b, r, n), Window(b, r, k);
    forall i | 0 <= i < k
      ensures whole[..k][i] == front[i]
    {
      WindowAt(b, r, n, i);
      WindowAt(b, r, k, i);
    }
  }

  lemma WindowRest(b: seq<byte>, r: nat, n: nat, k: nat)
    requires r < |b| && k <= n <= |b|
    ensures Window(b, r, n)[k..] == Window(b, Wrap(r + k, |b|), n - k)
  {
    var start := Wrap(r + k, |b|);
    var whole, rest := Window(b, r, n), Window(b, start, n - k);
    forall i | 0 <= i < n - k
      ensures whole[k..][i] == rest[i]
    {
      WindowAt(b, r, n, k + i);
      WindowAt(b, start, n - k, i);
      assert Wrap(start + i, |b|) == Wrap(r + (k + i), |b|);
    }
  }
}
