/** `zix/ring.cpp` under one reader thread and one writer thread, as a transition
    system. A call is a sequence of separate steps: loading the other side's head,
    the space check, one step for each byte copied (in any order, since `memcpy`
    promises none), and publishing the own head. Any interleaving is a run.

    Steps are sequentially consistent, which is the ordering the two barriers ask for.
    `history`, `writerReturns` and `readerReturns` record what happened; no step
    looks at them. */
module RingProtocol {
  import opened Bits
  import opened Options
  import opened RingArithmetic
  import opened RingContents

  datatype ReaderOp = ReadOp | SkipOp | PeekOp

  /** One completed call, as the caller sees it. */
  datatype Event =
    | Wrote(bytes: seq<byte>)
    | WriteRefused(count: nat)
    | Took(bytes: seq<byte>)
    | Peeked(bytes: seq<byte>)
    | Skipped(count: nat)
    | ReadRefused(op: ReaderOp, count: nat)
  {
    predicate ByWriter() {
      Wrote? || WriteRefused?
    }
  }

  // The sequential specification: a bounded first-in first-out queue.

  function QueueStep(q: seq<byte>, e: Event, capacity: nat): Option<seq<byte>> {
    match e
    case Wrote(b) => if |q| + |b| <= capacity then Some(q + b) else None
    case WriteRefused(n) => if |q| + n > capacity then Some(q) else None
    case Took(b) => if b <= q then Some(q[|b|..]) else None
    case Peeked(b) => if b <= q then Some(q) else None
    case Skipped(n) => if n <= |q| then Some(q[n..]) else None
    case ReadRefused(_, n) => if n > |q| then Some(q) else None
  }

  /** The queue after the events of `h`, or None if some event is not one the
      sequential queue could have produced at its place. */
  function Replay(h: seq<Event>, capacity: nat): Option<seq<byte>> {
    if h == [] then Some([])
    else
      match Replay(h[..|h| - 1], capacity)
      case None => None
      case Some(q) => QueueStep(q, h[|h| - 1], capacity)
  }

  // The two threads.

  datatype Writer =
    | WriterIdle
    | WriterLoaded(src: seq<byte>, r: nat)
    | WriterCopying(src: seq<byte>, w: nat, pending: set<nat>)

  datatype Reader =
    | ReaderIdle
    | ReaderLoaded(op: ReaderOp, n: nat, dst: seq<byte>, r: nat)
    | ReaderCopying(op: ReaderOp, n: nat, dst: seq<byte>, r: nat, pending: set<nat>)

  datatype State = State(
    size: nat, buf: seq<byte>, readHead: nat, writeHead: nat,
    writer: Writer, reader: Reader,
    history: seq<Event>, writerReturns: seq<Event>, readerReturns: seq<Event>)

  datatype Action =
    | WriteCall(src: seq<byte>)
    | WriteCheck
    | WriteByte(i: nat)
    | WritePublish
    | ReadCall(op: ReaderOp, n: nat, dst: seq<byte>)
    | ReadCheck
    | ReadByte(i: nat)
    | ReadFinish
  {
    predicate OfWriter() {
      WriteCall? || WriteCheck? || WriteByte? || WritePublish?
    }

    predicate Begins(ofWriter: bool) {
      if ofWriter then WriteCall? else ReadCall?
    }
  }

  /** Where the `i`th byte of a write starting at `w` goes (ring.cpp:215-222). */
  function WriteSlot(size: nat, w: nat, n: nat, i: nat): int {
    if U32(w + n) <= size || i < size - w then w + i else i - (size - w)
  }

  /** Where the `i`th byte of a read starting at `r` comes from (ring.cpp:160-166). */
  function ReadSlot(size: nat, r: nat, n: nat, i: nat): int {
    if U32(r + n) < size || i < size - r then r + i else i - (size - r)
  }

  /** The head a write publishes (ring.cpp:218, 224). */
  function PublishedWriteHead(size: nat, w: nat, n: nat): int
    requires size >= 1
  {
    if U32(w + n) <= size then BitAnd(U32(w + n), size - 1) else n - (size - w)
  }

  /** The head a read or skip publishes (ring.cpp:185, 202). A read of no bytes
      publishes nothing, because `peek_internal` returned 0. */
  function PublishedReadHead(size: nat, op: ReaderOp, r: nat, n: nat): nat
    requires size >= 1
  {
    if op == PeekOp || (op == ReadOp && n == 0) then r else BitAnd(U32(r + n), size - 1)
  }

  function Completed(op: ReaderOp, n: nat, dst: seq<byte>): Event {
    match op
    case ReadOp => Took(dst)
    case SkipOp => Skipped(n)
    case PeekOp => Peeked(dst)
  }

  function Below(n: nat): (s: set<nat>)
    ensures forall i :: i in s <==> 0 <= i < n
  {
    if n == 0 then {} else Below(n - 1) + {n - 1}
  }

  predicate Enabled(s: State, a: Action) {
    match a
    case WriteCall(src) => s.writer.WriterIdle? && |src| < U32_MODULUS
    case WriteCheck => s.writer.WriterLoaded?
    case WriteByte(i) =>
      s.writer.WriterCopying? && i in s.writer.pending && i < |s.writer.src|
      && 0 <= WriteSlot(s.size, s.writer.w, |s.writer.src|, i) < |s.buf|
    case WritePublish =>
      s.writer.WriterCopying? && s.writer.pending == {} && s.size >= 1
      && 0 <= PublishedWriteHead(s.size, s.writer.w, |s.writer.src|)
    case ReadCall(op, n, dst) =>
      s.reader.ReaderIdle? && n < U32_MODULUS && |dst| == (if op == SkipOp then 0 else n)
    case ReadCheck => s.reader.ReaderLoaded? && s.size >= 1
    case ReadByte(i) =>
      s.reader.ReaderCopying? && i in s.reader.pending && i < |s.reader.dst|
      && 0 <= ReadSlot(s.size, s.reader.r, s.reader.n, i) < |s.buf|
    case ReadFinish => s.reader.ReaderCopying? && s.reader.pending == {} && s.size >= 1
  }

  function Apply(s: State, a: Action): State
    requires Enabled(s, a) && s.size >= 1
  {
    match a
    case WriteCall(src) =>
      // A call that will be refused is recorded here, where it loads the read head.
      s.(writer := WriterLoaded(src, s.readHead),
         history := if WriteSpace(s.size, s.readHead, s.writeHead) < |src|
                    then s.history + [WriteRefused(|src|)] else s.history)
    case WriteCheck =>
      var src := s.writer.src;
      if WriteSpace(s.size, s.writer.r, s.writeHead) < |src| then
        s.(writer := WriterIdle, writerReturns := s.writerReturns + [WriteRefused(|src|)])
      else
        s.(writer := WriterCopying(src, s.writeHead, Below(|src|)))
    case WriteByte(i) =>
      var slot := WriteSlot(s.size, s.writer.w, |s.writer.src|, i);
      s.(buf := s.buf[slot := s.writer.src[i]],
         writer := s.writer.(pending := s.writer.pending - {i}))
    case WritePublish =>
      var e := Wrote(s.writer.src);
      s.(writeHead := PublishedWriteHead(s.size, s.writer.w, |s.writer.src|),
         writer := WriterIdle,
         history := s.history + [e], writerReturns := s.writerReturns + [e])
    case ReadCall(op, n, dst) =>
      s.(reader := ReaderLoaded(op, n, dst, s.readHead))
    case ReadCheck =>
      var c := s.reader;
      if ReadSpace(s.size, c.r, s.writeHead) < c.n then
        var e := ReadRefused(c.op, c.n);
        s.(reader := ReaderIdle, history := s.history + [e], readerReturns := s.readerReturns + [e])
      else
        s.(reader := ReaderCopying(c.op, c.n, c.dst, c.r, Below(|c.dst|)))
    case ReadByte(i) =>
      var slot := ReadSlot(s.size, s.reader.r, s.reader.n, i);
      s.(reader := s.reader.(dst := s.reader.dst[i := s.buf[slot]],
                             pending := s.reader.pending - {i}))
    case ReadFinish =>
      var c := s.reader;
      var e := Completed(c.op, c.n, c.dst);
      s.(readHead := PublishedReadHead(s.size, c.op, c.r, c.n),
         reader := ReaderIdle,
         history := s.history + [e], readerReturns := s.readerReturns + [e])
  }

  /** A fresh ring of `size` bytes; what its memory holds is arbitrary. */
  predicate Initial(s: State) {
    && |s.buf| == s.size && s.readHead == 0 && s.writeHead == 0
    && s.writer == WriterIdle && s.reader == ReaderIdle
    && s.history == [] && s.writerReturns == [] && s.readerReturns == []
  }

  /** The state after the actions of a run, or None if one of them was not possible. */
  function Execute(s: State, run: seq<Action>): Option<State>
    requires s.size >= 1
    ensures Execute(s, run).Some? ==> Execute(s, run).value.size == s.size
  {
    if run == [] then Some(s)
    else
      match Execute(s, run[..|run| - 1])
      case None => None
      case Some(t) =>
        var a := run[|run| - 1];
        if Enabled(t, a) then Some(Apply(t, a)) else None
  }

  // The invariant.

  ghost predicate HeadsValid(s: State) {
    ValidSize(s.size) && |s.buf| == s.size && s.readHead < s.size && s.writeHead < s.size
  }

  ghost function QueueLength(s: State): nat
    requires HeadsValid(s)
  {
    Gap(s.readHead, s.writeHead, s.size)
  }

  /** The bytes published and not yet consumed. */
  ghost function Queue(s: State): (q: seq<byte>)
    requires HeadsValid(s)
    ensures |q| == QueueLength(s)
  {
    Window(s.buf, s.readHead, QueueLength(s))
  }

  ghost predicate WriterInv(s: State)
    requires HeadsValid(s)
  {
    match s.writer
    case WriterIdle => true
    case WriterLoaded(src, r) =>
      // The loaded head is stale, but the real one is still between it and the write head.
      && r < s.size
      && Gap(r, s.readHead, s.size) + QueueLength(s) == Gap(r, s.writeHead, s.size)
    case WriterCopying(src, w, pending) =>
      && w == s.writeHead
      && QueueLength(s) + |src| < s.size
      && pending <= Below(|src|)
      && forall i: nat :: i < |src| && i !in pending ==> s.buf[Wrap(w + i, s.size)] == src[i]
  }

  ghost predicate ReaderInv(s: State)
    requires HeadsValid(s)
  {
    match s.reader
    case ReaderIdle => true
    case ReaderLoaded(op, n, dst, r) =>
      r == s.readHead && |dst| == if op == SkipOp then 0 else n
    case ReaderCopying(op, n, dst, r, pending) =>
      && r == s.readHead
      && n <= QueueLength(s)
      && |dst| == (if op == SkipOp then 0 else n)
      && pending <= Below(|dst|)
      && forall i: nat :: i < |dst| && i !in pending ==> dst[i] == Queue(s)[i]
  }

  function WriterPart(h: seq<Event>): seq<Event> {
    if h == [] then []
    else WriterPart(h[..|h| - 1]) + if h[|h| - 1].ByWriter() then [h[|h| - 1]] else []
  }

  function ReaderPart(h: seq<Event>): seq<Event> {
    if h == [] then []
    else ReaderPart(h[..|h| - 1]) + if h[|h| - 1].ByWriter() then [] else [h[|h| - 1]]
  }

  /** The refusal a write call already stands to return. */
  function OwedRefusal(s: State): seq<Event>
    requires s.size >= 1
  {
    if s.writer.WriterLoaded? && WriteSpace(s.size, s.writer.r, s.writeHead) < |s.writer.src|
    then [WriteRefused(|s.writer.src|)] else []
  }

  lemma AppendEvent(h: seq<Event>, e: Event, capacity: nat)
    requires Replay(h, capacity).Some?
    ensures Replay(h + [e], capacity) == QueueStep(Replay(h, capacity).value, e, capacity)
    ensures WriterPart(h + [e]) == WriterPart(h) + if e.ByWriter() then [e] else []
    ensures ReaderPart(h + [e]) == ReaderPart(h) + if e.ByWriter() then [] else [e]
  {
    assert (h + [e])[..|h|] == h;
  }

  /** The record so far is a run of the sequential queue, and each thread's part of it
      is what the thread has been told. */
  ghost predicate Logged(s: State)
    requires HeadsValid(s)
  {
    && Replay(s.history, s.size - 1) == Some(Queue(s))
    && WriterPart(s.history) == s.writerReturns + OwedRefusal(s)
    && ReaderPart(s.history) == s.readerReturns
  }

  ghost predicate Inv(s: State) {
    HeadsValid(s) && Logged(s) && WriterInv(s) && ReaderInv(s)
  }

  /** A step that records nothing and leaves the queue alone keeps the record right. */
  lemma SameLog(s: State, t: State)
    requires HeadsValid(s) && HeadsValid(t) && Logged(s) && t.size == s.size
    requires t.history == s.history && t.writerReturns == s.writerReturns && t.readerReturns == s.readerReturns
    requires Queue(t) == Queue(s) && OwedRefusal(t) == OwedRefusal(s)
    ensures Logged(t)
  {
  }

  lemma SameWriter(s: State, t: State)
    requires HeadsValid(s) && HeadsValid(t) && WriterInv(s) && t.writer == s.writer
    requires t.size == s.size && t.buf == s.buf && t.readHead == s.readHead && t.writeHead == s.writeHead
    ensures WriterInv(t) && Queue(t) == Queue(s) && OwedRefusal(t) == OwedRefusal(s)
  {
  }

  /** A step of the reader that records one event keeps the record right. */
  lemma ReaderLogs(s: State, t: State, e: Event)
    requires HeadsValid(s) && HeadsValid(t) && Logged(s) && t.size == s.size && !e.ByWriter()
    requires t.history == s.history + [e] && t.readerReturns == s.readerReturns + [e]
    requires t.writerReturns == s.writerReturns && OwedRefusal(t) == OwedRefusal(s)
    requires QueueStep(Queue(s), e, s.size - 1) == Some(Queue(t))
    ensures Logged(t)
  {
    AppendEvent(s.history, e, s.size - 1);
  }

  lemma NothingOwed(s: State)
    requires s.size >= 1 && !s.writer.WriterLoaded?
    ensures OwedRefusal(s) == []
  {
  }

  /** A step of the writer that records one event keeps the record right. */
  lemma WriterLogs(s: State, t: State, e: Event)
    requires HeadsValid(s) && HeadsValid(t) && Logged(s) && t.size == s.size && e.ByWriter()
    requires t.history == s.history + [e] && t.readerReturns == s.readerReturns
    requires t.writerReturns + OwedRefusal(t) == s.writerReturns + OwedRefusal(s) + [e]
    requires QueueStep(Queue(s), e, s.size - 1) == Some(Queue(t))
    ensures Logged(t)
  {
    AppendEvent(s.history, e, s.size - 1);
  }

  lemma InitialInv(s: State)
    requires Initial(s) && ValidSize(s.size)
    ensures Inv(s)
  {
    ValidSizeBound(s.size);
  }

  lemma WriteCallKeepsInv(s: State, a: Action)
    requires Inv(s) && a.WriteCall? && Enabled(s, a)
    ensures Inv(Apply(s, a))
  {
    var t := Apply(s, a);
    SpacesAreGaps(s.size, s.readHead, s.writeHead);
    NothingOwed(s);
    if WriteSpace(s.size, s.readHead, s.writeHead) < |a.src| {
      WriterLogs(s, t, WriteRefused(|a.src|));
    } else {
      SameLog(s, t);
    }
  }

  lemma {:induction false} WriteCheckKeepsInv(s: State)
    requires Inv(s) && Enabled(s, WriteCheck)
    ensures Inv(Apply(s, WriteCheck))
  {
    SpacesAreGaps(s.size, s.writer.r, s.writeHead);
    if WriteSpace(s.size, s.writer.r, s.writeHead) < |s.writer.src| {
      WriteRefusedReturns(s);
    } else {
      WriteStarts(s);
    }
  }

  lemma WriteRefusedReturns(s: State)
    requires Inv(s) && Enabled(s, WriteCheck)
    requires WriteSpace(s.size, s.writer.r, s.writeHead) < |s.writer.src|
    ensures Inv(Apply(s, WriteCheck))
  {
    var t := Apply(s, WriteCheck);
    assert Queue(t) == Queue(s) && OwedRefusal(t) == [];
    assert t.writerReturns == s.writerReturns + OwedRefusal(s);
  }

  lemma WriteStarts(s: State)
    requires Inv(s) && Enabled(s, WriteCheck)
    requires WriteSpace(s.size, s.writer.r, s.writeHead) >= |s.writer.src|
    requires WriteSpace(s.size, s.writer.r, s.writeHead) == s.size - 1 - Gap(s.writer.r, s.writeHead, s.size)
    ensures Inv(Apply(s, WriteCheck))
  {
    var t := Apply(s, WriteCheck);
    assert Queue(t) == Queue(s) && OwedRefusal(t) == OwedRefusal(s) == [];
    SameLog(s, t);
  }

  /** A byte store outside a window does not change it. */
  lemma StoreOutsideWindow(b: seq<byte>, r: nat, n: nat, k: nat, v: byte)
    requires r < |b| && n <= k < |b|
    ensures Window(b[Wrap(r + k, |b|) := v], r, n) == Window(b, r, n)
  {
  }

  lemma WriteSlotWraps(size: nat, w: nat, n: nat, i: nat)
    requires ValidSize(size) && w < size && n < size && i < n
    ensures WriteSlot(size, w, n, i) == Wrap(w + i, size) < size
  {
    MaskedHead(w + n, size);
  }

  lemma ReadSlotWraps(size: nat, r: nat, n: nat, i: nat)
    requires ValidSize(size) && r < size && n < size && i < n
    ensures ReadSlot(size, r, n, i) == Wrap(r + i, size) < size
  {
    MaskedHead(r + n, size);
  }

  lemma WriteByteQueue(s: State, i: nat)
    requires HeadsValid(s) && WriterInv(s) && Enabled(s, WriteByte(i))
    ensures HeadsValid(Apply(s, WriteByte(i)))
    ensures Queue(Apply(s, WriteByte(i))) == Queue(s)
  {
    var src, w := s.writer.src, s.writer.w;
    WriteSlotWraps(s.size, w, |src|, i);
    StoreOutsideWindow(s.buf, s.readHead, QueueLength(s), QueueLength(s) + i, src[i]);
  }

  lemma WriteByteWriter(s: State, i: nat)
    requires HeadsValid(s) && WriterInv(s) && Enabled(s, WriteByte(i))
    ensures HeadsValid(Apply(s, WriteByte(i))) && WriterInv(Apply(s, WriteByte(i)))
  {
    var src, w := s.writer.src, s.writer.w;
    WriteSlotWraps(s.size, w, |src|, i);
  }

  lemma WriteByteKeepsInv(s: State, i: nat)
    requires Inv(s) && Enabled(s, WriteByte(i))
    ensures Inv(Apply(s, WriteByte(i)))
  {
    WriteByteQueue(s, i);
    WriteByteWriter(s, i);
    SameLog(s, Apply(s, WriteByte(i)));
  }

  lemma PublishedByte(b: seq<byte>, r: nat, n: nat, w: nat, src: seq<byte>, i: nat)
    requires r < |b| && n + |src| < |b| && w == Wrap(r + n, |b|) && i < n + |src|
    requires i >= n ==> b[Wrap(w + (i - n), |b|)] == src[i - n]
    ensures Window(b, r, n + |src|)[i] == (Window(b, r, n) + src)[i]
  {
    WindowAt(b, r, n + |src|, i);
    if i < n {
      WindowAt(b, r, n, i);
    } else {
      assert Wrap(w + (i - n), |b|) == Wrap(r + i, |b|);
    }
  }

  lemma PublishedBytes(b: seq<byte>, r: nat, n: nat, w: nat, src: seq<byte>)
    requires r < |b| && n + |src| < |b| && w == Wrap(r + n, |b|)
    requires forall i: nat :: i < |src| ==> b[Wrap(w + i, |b|)] == src[i]
    ensures Window(b, r, n + |src|) == Window(b, r, n) + src
  {
    var whole, parts := Window(b, r, n + |src|), Window(b, r, n) + src;
    assert |whole| == |parts|;
    forall i | 0 <= i < |parts|
      ensures whole[i] == parts[i]
    {
      PublishedByte(b, r, n, w, src, i);
    }
  }

  lemma WritePublishHead(s: State)
    requires HeadsValid(s) && WriterInv(s) && Enabled(s, WritePublish)
    ensures var t, n := Apply(s, WritePublish), |s.writer.src|;
      HeadsValid(t) && QueueLength(t) == QueueLength(s) + n
  {
    MaskedHead(s.writer.w + |s.writer.src|, s.size);
  }

  lemma {:induction false} WritePublishQueue(s: State)
    requires HeadsValid(s) && WriterInv(s) && Enabled(s, WritePublish)
    ensures var t := Apply(s, WritePublish);
      HeadsValid(t) && Queue(t) == Queue(s) + s.writer.src
  {
    WritePublishHead(s);
    PublishedBytes(s.buf, s.readHead, QueueLength(s), s.writer.w, s.writer.src);
  }

  lemma WritePublishKeepsInv(s: State)
    requires Inv(s) && Enabled(s, WritePublish)
    ensures Inv(Apply(s, WritePublish))
  {
    WritePublishQueue(s);
    WritePublishReader(s);
    WritePublishLogged(s);
  }

  /** More bytes behind those it copies do not disturb the reader. */
  lemma WritePublishReader(s: State)
    requires HeadsValid(s) && ReaderInv(s) && Enabled(s, WritePublish) && HeadsValid(Apply(s, WritePublish))
    requires Queue(Apply(s, WritePublish)) == Queue(s) + s.writer.src
    ensures ReaderInv(Apply(s, WritePublish))
  {
  }

  lemma WritePublishLogged(s: State)
    requires HeadsValid(s) && Logged(s) && WriterInv(s) && Enabled(s, WritePublish)
    requires HeadsValid(Apply(s, WritePublish)) && Queue(Apply(s, WritePublish)) == Queue(s) + s.writer.src
    ensures Logged(Apply(s, WritePublish))
  {
    var t := Apply(s, WritePublish);
    NothingOwed(s);
    NothingOwed(t);
    WriterLogs(s, t, Wrote(s.writer.src));
  }

  lemma ReadCallKeepsInv(s: State, a: Action)
    requires Inv(s) && a.ReadCall? && Enabled(s, a)
    ensures Inv(Apply(s, a))
  {
    SameWriter(s, Apply(s, a));
    SameLog(s, Apply(s, a));
  }

  lemma ReadCheckReader(s: State)
    requires HeadsValid(s) && ReaderInv(s) && Enabled(s, ReadCheck)
    ensures var t := Apply(s, ReadCheck);
      && HeadsValid(t) && Queue(t) == Queue(s) && ReaderInv(t)
      && (t.reader.ReaderIdle? <==> s.reader.n > |Queue(s)|)
  {
    SpacesAreGaps(s.size, s.reader.r, s.writeHead);
  }

  lemma ReadCheckKeepsInv(s: State)
    requires Inv(s) && Enabled(s, ReadCheck)
    ensures Inv(Apply(s, ReadCheck))
  {
    var t := Apply(s, ReadCheck);
    ReadCheckReader(s);
    SameWriter(s, t);
    if t.reader.ReaderIdle? {
      ReaderLogs(s, t, ReadRefused(s.reader.op, s.reader.n));
    } else {
      SameLog(s, t);
    }
  }

  lemma ReadByteReader(s: State, i: nat)
    requires HeadsValid(s) && ReaderInv(s) && Enabled(s, ReadByte(i))
    ensures HeadsValid(Apply(s, ReadByte(i))) && ReaderInv(Apply(s, ReadByte(i)))
  {
    ReadSlotWraps(s.size, s.reader.r, s.reader.n, i);
    WindowAt(s.buf, s.readHead, QueueLength(s), i);
  }

  lemma ReadByteKeepsInv(s: State, i: nat)
    requires Inv(s) && Enabled(s, ReadByte(i))
    ensures Inv(Apply(s, ReadByte(i)))
  {
    var t := Apply(s, ReadByte(i));
    ReadByteReader(s, i);
    SameWriter(s, t);
    SameLog(s, t);
  }

  /** Consuming only moves the real read head forward inside the region the
      writer's stale head already counts as occupied. */
  lemma StaleHeadStays(size: nat, stale: nat, r: nat, w: nat, n: nat)
    requires stale < size && r < size && w < size && n <= Gap(r, w, size)
    requires Gap(stale, r, size) + Gap(r, w, size) == Gap(stale, w, size)
    ensures var r' := Wrap(r + n, size);
      && r' < size && Gap(r', w, size) == Gap(r, w, size) - n
      && Gap(stale, r', size) + Gap(r', w, size) == Gap(stale, w, size)
  {
  }

  /** How far finishing a call moves the read head. */
  function Advance(op: ReaderOp, n: nat): nat {
    if op == PeekOp then 0 else n
  }

  lemma ReadFinishHead(s: State)
    requires HeadsValid(s) && ReaderInv(s) && Enabled(s, ReadFinish)
    ensures var t, n := Apply(s, ReadFinish), Advance(s.reader.op, s.reader.n);
      && n <= QueueLength(s) && t.readHead == Wrap(s.readHead + n, s.size)
      && HeadsValid(t) && QueueLength(t) == QueueLength(s) - n
  {
    PublishedReadHeadWraps(s.size, s.reader.op, s.reader.r, s.reader.n);
    StaleHeadStays(s.size, s.readHead, s.readHead, s.writeHead, Advance(s.reader.op, s.reader.n));
  }

  lemma PublishedReadHeadWraps(size: nat, op: ReaderOp, r: nat, n: nat)
    requires ValidSize(size) && r < size && n < size
    ensures size >= 1 && PublishedReadHead(size, op, r, n) == Wrap(r + Advance(op, n), size)
  {
    MaskedHead(r + n, size);
  }

  lemma ReadFinishBytes(s: State)
    requires HeadsValid(s) && ReaderInv(s) && Enabled(s, ReadFinish)
    ensures s.reader.n <= QueueLength(s)
    ensures s.reader.op != SkipOp ==> s.reader.dst == Queue(s)[..s.reader.n]
  {
  }

  lemma ReadFinishQueue(s: State)
    requires HeadsValid(s) && ReaderInv(s) && Enabled(s, ReadFinish)
    ensures var t := Apply(s, ReadFinish);
      && HeadsValid(t)
      && Some(Queue(t)) == QueueStep(Queue(s), Completed(s.reader.op, s.reader.n, s.reader.dst), s.size - 1)
  {
    ReadFinishHead(s);
    ReadFinishBytes(s);
    WindowSplit(s.buf, s.readHead, QueueLength(s), Advance(s.reader.op, s.reader.n));
  }

  /** Consuming keeps what the writer relies on. */
  lemma WriterSurvivesConsuming(s: State, t: State, n: nat)
    requires HeadsValid(s) && HeadsValid(t) && WriterInv(s) && n <= QueueLength(s)
    requires t.size == s.size && t.buf == s.buf && t.writer == s.writer && t.writeHead == s.writeHead
    requires t.readHead == Wrap(s.readHead + n, s.size) && QueueLength(t) == QueueLength(s) - n
    ensures WriterInv(t)
  {
    if s.writer.WriterLoaded? {
      StaleHeadStays(s.size, s.writer.r, s.readHead, s.writeHead, n);
    }
  }

  lemma ReadFinishWriter(s: State)
    requires HeadsValid(s) && ReaderInv(s) && WriterInv(s) && Enabled(s, ReadFinish)
    ensures HeadsValid(Apply(s, ReadFinish)) && WriterInv(Apply(s, ReadFinish))
  {
    ReadFinishHead(s);
    WriterSurvivesConsuming(s, Apply(s, ReadFinish), Advance(s.reader.op, s.reader.n));
  }

  lemma ReadFinishKeepsInv(s: State)
    requires Inv(s) && Enabled(s, ReadFinish)
    ensures Inv(Apply(s, ReadFinish))
  {
    var t := Apply(s, ReadFinish);
    ReadFinishQueue(s);
    ReadFinishWriter(s);
    ReaderLogs(s, t, Completed(s.reader.op, s.reader.n, s.reader.dst));
  }

  lemma {:induction false} StepKeepsInv(s: State, a: Action)
    requires Inv(s) && Enabled(s, a)
    ensures Inv(Apply(s, a))
  {
    match a
    case WriteCall(_) => WriteCallKeepsInv(s, a);
    case WriteCheck => WriteCheckKeepsInv(s);
    case WriteByte(i) => WriteByteKeepsInv(s, i);
    case WritePublish => WritePublishKeepsInv(s);
    case ReadCall(_, _, _) => ReadCallKeepsInv(s, a);
    case ReadCheck => ReadCheckKeepsInv(s);
    case ReadByte(i) => ReadByteKeepsInv(s, i);
    case ReadFinish => ReadFinishKeepsInv(s);
  }

  lemma {:induction false} RunKeepsInv(s: State, run: seq<Action>)
    requires Initial(s) && ValidSize(s.size)
    requires Execute(s, run).Some?
    ensures Inv(Execute(s, run).value)
  {
    if run == [] {
      InitialInv(s);
    } else {
      var before := run[..|run| - 1];
      RunKeepsInv(s, before);
      StepKeepsInv(Execute(s, before).value, run[|run| - 1]);
    }
  }

  // What the invariant says over whole runs.

  /** `t` ended a linearisable run: the completed calls, in the order of `history`, are
      a run of the sequential bounded queue that ends in the bytes now stored; and each
      thread got exactly the results `history` gives it, in its own order (a write bound
      to be refused may be recorded just before it returns). */
  ghost predicate Linearized(t: State)
    requires HeadsValid(t)
  {
    && Replay(t.history, t.size - 1) == Some(Queue(t))
    && ReaderPart(t.history) == t.readerReturns
    && t.writerReturns <= WriterPart(t.history)
    && (!t.writer.WriterLoaded? ==> t.writerReturns == WriterPart(t.history))
  }

  lemma InvIsLinearized(s: State)
    requires Inv(s)
    ensures Linearized(s)
  {
    if !s.writer.WriterLoaded? {
      assert s.writerReturns + OwedRefusal(s) == s.writerReturns;
    }
  }

  // Real time: an event lies between the first and the last step of its call.

  function PartOf(h: seq<Event>, ofWriter: bool): seq<Event> {
    if ofWriter then WriterPart(h) else ReaderPart(h)
  }

  function ReturnsOf(s: State, ofWriter: bool): seq<Event> {
    if ofWriter then s.writerReturns else s.readerReturns
  }

  /** How many calls a thread has begun. */
  function Begun(run: seq<Action>, ofWriter: bool): nat {
    if run == [] then 0
    else
      var a := run[|run| - 1];
      Begun(run[..|run| - 1], ofWriter) + if a.Begins(ofWriter) then 1 else 0
  }

  /** At every moment of the run, what was recorded so far starts the final record, and of
      each thread it holds an event of every call that has returned and of no call that
      has not begun. */
  ghost predicate InRealTime(s: State, run: seq<Action>)
    requires s.size >= 1 && Execute(s, run).Some?
  {
    forall k :: 0 <= k <= |run| ==> RecordedInTime(s, run[..k], Execute(s, run).value.history)
  }

  ghost predicate RecordedInTime(s: State, before: seq<Action>, history: seq<Event>)
    requires s.size >= 1
  {
    && Execute(s, before).Some?
    && Execute(s, before).value.history <= history
    && forall ofWriter ::
      |ReturnsOf(Execute(s, before).value, ofWriter)|
      <= |PartOf(Execute(s, before).value.history, ofWriter)|
      <= Begun(before, ofWriter)
  }

  /** The calls a thread has begun: those that have returned, and one it may be in. */
  function Known(s: State, ofWriter: bool): nat {
    |ReturnsOf(s, ofWriter)| + if StepsLeft(s, ofWriter) > 0 then 1 else 0
  }

  lemma StepBeginsOrReturns(s: State, a: Action, ofWriter: bool)
    requires s.size >= 1 && Enabled(s, a)
    ensures Known(Apply(s, a), ofWriter) == Known(s, ofWriter) + if a.Begins(ofWriter) then 1 else 0
  {
  }

  lemma {:induction false} BegunOrReturned(s: State, run: seq<Action>, ofWriter: bool)
    requires Initial(s) && s.size >= 1
    requires Execute(s, run).Some?
    ensures Begun(run, ofWriter) == Known(Execute(s, run).value, ofWriter)
  {
    if run != [] {
      var before := run[..|run| - 1];
      BegunOrReturned(s, before, ofWriter);
      StepBeginsOrReturns(Execute(s, before).value, run[|run| - 1], ofWriter);
    }
  }

  lemma StepExtendsHistory(s: State, a: Action)
    requires s.size >= 1 && Enabled(s, a)
    ensures s.history <= Apply(s, a).history
  {
  }

  lemma {:induction false} HistoryGrows(s: State, run: seq<Action>, k: nat)
    requires s.size >= 1 && k <= |run|
    requires Execute(s, run).Some?
    ensures Execute(s, run[..k]).Some?
    ensures Execute(s, run[..k]).value.history <= Execute(s, run).value.history
  {
    if k == |run| {
      assert run[..k] == run;
    } else {
      var before := run[..|run| - 1];
      HistoryGrows(s, before, k);
      assert before[..k] == run[..k];
      StepExtendsHistory(Execute(s, before).value, run[|run| - 1]);
    }
  }

  lemma RunIsInRealTime(s: State, run: seq<Action>)
    requires Initial(s) && ValidSize(s.size)
    requires Execute(s, run).Some?
    ensures InRealTime(s, run)
  {
    forall k | 0 <= k <= |run|
      ensures RecordedInTime(s, run[..k], Execute(s, run).value.history)
    {
      HistoryGrows(s, run, k);
      RunKeepsInv(s, run[..k]);
      BegunOrReturned(s, run[..k], true);
      BegunOrReturned(s, run[..k], false);
    }
  }

  /** Every run of the ring is linearisable, in an order that respects real time. */
  lemma {:induction false} RunsAreLinearizable(s: State, run: seq<Action>)
    requires Initial(s) && ValidSize(s.size)
    requires Execute(s, run).Some?
    ensures HeadsValid(Execute(s, run).value) && Linearized(Execute(s, run).value)
    ensures InRealTime(s, run)
  {
    RunKeepsInv(s, run);
    InvIsLinearized(Execute(s, run).value);
    RunIsInRealTime(s, run);
  }

  lemma {:induction false} PartGrows(h: seq<Event>, k: nat, ofWriter: bool)
    requires k <= |h|
    ensures |PartOf(h[..k], ofWriter)| <= |PartOf(h, ofWriter)|
  {
    if k == |h| {
      assert h[..k] == h;
    } else {
      var before := h[..|h| - 1];
      PartGrows(before, k, ofWriter);
      assert before[..k] == h[..k];
    }
  }

  /** `h[at]` is the event of the `i`th call of a thread. */
  predicate IsCallOf(h: seq<Event>, at: nat, ofWriter: bool, i: nat) {
    at < |h| && h[at].ByWriter() == ofWriter && |PartOf(h[..at], ofWriter)| == i
  }

  /** An event is among the first `n` exactly when they hold more events of its thread
      than there are before it. */
  lemma CallsRecordedBy(h: seq<Event>, n: nat, at: nat, ofWriter: bool)
    requires n <= |h| && at < |h| && h[at].ByWriter() == ofWriter
    ensures at < n <==> |PartOf(h[..at], ofWriter)| < |PartOf(h[..n], ofWriter)|
  {
    if at < n {
      PartGrows(h[..n], at + 1, ofWriter);
      assert h[..n][..at + 1] == h[..at + 1];
      assert h[..at + 1][..at] == h[..at] && h[..at + 1][at] == h[at];
    } else {
      PartGrows(h[..at], n, ofWriter);
      assert h[..at][..n] == h[..n];
    }
  }

  /** A call that has returned before another one begins comes before it in the record,
      whichever threads make them. */
  lemma ReturnedBeforeBegun(s: State, run: seq<Action>, k: nat,
                            p: nat, first: bool, i: nat, q: nat, second: bool, j: nat)
    requires Initial(s) && ValidSize(s.size) && k <= |run|
    requires Execute(s, run).Some? && Execute(s, run[..k]).Some?
    requires i < |ReturnsOf(Execute(s, run[..k]).value, first)| && Begun(run[..k], second) <= j
    requires IsCallOf(Execute(s, run).value.history, p, first, i)
    requires IsCallOf(Execute(s, run).value.history, q, second, j)
    ensures p < q
  {
    RunIsInRealTime(s, run);
    var now, h := Execute(s, run[..k]).value.history, Execute(s, run).value.history;
    assert RecordedInTime(s, run[..k], h);
    assert h[..|now|] == now;
    CallsRecordedBy(h, |now|, p, first);
    CallsRecordedBy(h, |now|, q, second);
  }

  /** Each call takes effect at one step of its own, while it is in progress: a step
      records at most one event, and only of the thread that takes it. */
  lemma EventsFallInsideCalls(s: State, a: Action)
    requires Inv(s) && Enabled(s, a)
    ensures var t := Apply(s, a);
      || t.history == s.history
      || (&& |t.history| == |s.history| + 1 && s.history <= t.history
          && t.history[|s.history|].ByWriter() == a.OfWriter()
          && (StepsLeft(s, a.OfWriter()) > 0 || StepsLeft(t, a.OfWriter()) > 0))
  {
  }

  lemma ReplayLast(h: seq<Event>, before: seq<Event>, e: Event, capacity: nat)
    requires h == before + [e]
    ensures Replay(h, capacity) == match Replay(before, capacity)
                                   case None => None
                                   case Some(q) => QueueStep(q, e, capacity)
  {
    assert h[..|h| - 1] == before;
  }

  /** What the writer does keeps the bytes at the front of the queue. */
  lemma WritesKeepFront(q: seq<byte>, e: Event, capacity: nat, b: seq<byte>)
    requires e.ByWriter() && b <= q && QueueStep(q, e, capacity).Some?
    ensures b <= QueueStep(q, e, capacity).value
  {
  }

  lemma {:induction false} PeekLeavesNoTrace(h: seq<Event>, b: seq<byte>, writes: seq<Event>, capacity: nat)
    requires Replay(h + [Peeked(b)], capacity).Some?
    requires forall e <- writes :: e.ByWriter()
    ensures Replay(h + [Peeked(b)] + writes, capacity) == Replay(h + writes, capacity)
    ensures Replay(h + writes, capacity).Some? ==>
      Replay(h, capacity).Some? && b <= Replay(h + writes, capacity).value
  {
    ReplayLast(h + [Peeked(b)], h, Peeked(b), capacity);
    if writes == [] {
      assert h + [Peeked(b)] + writes == h + [Peeked(b)] && h + writes == h;
    } else {
      var before, e := writes[..|writes| - 1], writes[|writes| - 1];
      PeekLeavesNoTrace(h, b, before, capacity);
      ReplayLast(h + writes, h + before, e, capacity);
      ReplayLast(h + [Peeked(b)] + writes, h + [Peeked(b)] + before, e, capacity);
      if Replay(h + writes, capacity).Some? {
        WritesKeepFront(Replay(h + before, capacity).value, e, capacity, b);
      }
    }
  }

  /** A peek and a later skip of the same bytes, whatever the writer does in between, are
      a read at the place of the skip. */
  lemma PeekThenSkipIsRead(h: seq<Event>, b: seq<byte>, writes: seq<Event>, capacity: nat)
    requires Replay(h + [Peeked(b)] + writes, capacity).Some? && Replay(h + [Peeked(b)], capacity).Some?
    requires forall e <- writes :: e.ByWriter()
    ensures Replay(h + [Peeked(b)] + writes + [Skipped(|b|)], capacity).Some?
    ensures Replay(h + [Peeked(b)] + writes + [Skipped(|b|)], capacity)
      == Replay(h + writes + [Took(b)], capacity)
  {
    PeekLeavesNoTrace(h, b, writes, capacity);
    AppendEvent(h + [Peeked(b)] + writes, Skipped(|b|), capacity);
    AppendEvent(h + writes, Took(b), capacity);
  }

  /** All bytes of the accepted writes of `h`, in order. */
  function Accepted(h: seq<Event>): seq<byte> {
    if h == [] then []
    else
      var e := h[|h| - 1];
      Accepted(h[..|h| - 1]) + if e.Wrote? then e.bytes else []
  }

  /** How many bytes the reads and skips of `h` have passed over. */
  function Passed(h: seq<Event>): nat {
    if h == [] then 0
    else
      var e := h[|h| - 1];
      Passed(h[..|h| - 1]) + if e.Took? then |e.bytes| else if e.Skipped? then e.count else 0
  }

  /** `b` is the stretch of `whole` that starts at `from`. */
  predicate OccursAt(b: seq<byte>, whole: seq<byte>, from: nat) {
    from + |b| <= |whole| && whole[from..from + |b|] == b
  }

  lemma OccursInLonger(b: seq<byte>, whole: seq<byte>, more: seq<byte>, from: nat)
    requires OccursAt(b, whole, from)
    ensures OccursAt(b, whole + more, from)
  {
  }

  /** First-in first-out: `stored` is what was accepted and not passed over, and
      every read or peek returned the bytes accepted at its own place in the stream. */
  predicate IsFifo(h: seq<Event>, stored: seq<byte>) {
    && Passed(h) <= |Accepted(h)|
    && stored == Accepted(h)[Passed(h)..]
    && forall k :: 0 <= k < |h| && (h[k].Took? || h[k].Peeked?) ==>
      OccursAt(h[k].bytes, Accepted(h), Passed(h[..k]))
  }

  /** One more event takes the next bytes of the stream, or adds to its end. */
  lemma EventKeepsOrder(h: seq<Event>, e: Event, q: seq<byte>, capacity: nat)
    requires Passed(h) <= |Accepted(h)| && q == Accepted(h)[Passed(h)..]
    requires QueueStep(q, e, capacity).Some?
    ensures Accepted(h + [e]) == Accepted(h) + if e.Wrote? then e.bytes else []
    ensures Passed(h) <= Passed(h + [e]) <= |Accepted(h + [e])|
    ensures QueueStep(q, e, capacity) == Some(Accepted(h + [e])[Passed(h + [e])..])
    ensures e.Took? || e.Peeked? ==> OccursAt(e.bytes, Accepted(h + [e]), Passed(h))
  {
    assert (h + [e])[..|h|] == h;
    var stream, passed := Accepted(h), Passed(h);
    assert stream + [] == stream;
    match e
    case Wrote(b) => assert (stream + b)[passed..] == stream[passed..] + b;
    case Took(b) => assert stream[passed..][|b|..] == stream[passed + |b|..];
    case Skipped(n) => assert stream[passed..][n..] == stream[passed + n..];
    case _ =>
  }

  /** What occurred in the stream keeps its place when bytes are added to the end. */
  lemma PlacesStay(h: seq<Event>, e: Event, k: nat)
    requires k < |h| && (h[k].Took? || h[k].Peeked?)
    requires OccursAt(h[k].bytes, Accepted(h), Passed(h[..k]))
    ensures (h + [e])[..k] == h[..k]
    ensures OccursAt(h[k].bytes, Accepted(h + [e]), Passed((h + [e])[..k]))
  {
    assert (h + [e])[..|h|] == h && (h + [e])[..k] == h[..k];
    OccursInLonger(h[k].bytes, Accepted(h), if e.Wrote? then e.bytes else [], Passed(h[..k]));
  }

  lemma {:induction false} ReplayIsFifo(h: seq<Event>, capacity: nat)
    requires Replay(h, capacity).Some?
    ensures IsFifo(h, Replay(h, capacity).value)
    ensures |Replay(h, capacity).value| <= capacity
  {
    if h != [] {
      var before, e := h[..|h| - 1], h[|h| - 1];
      assert h == before + [e];
      ReplayIsFifo(before, capacity);
      EventKeepsOrder(before, e, Replay(before, capacity).value, capacity);
      forall k | 0 <= k < |h| && (h[k].Took? || h[k].Peeked?)
        ensures OccursAt(h[k].bytes, Accepted(h), Passed(h[..k]))
      {
        if k < |before| {
          assert before[k] == h[k];
          PlacesStay(before, e, k);
        }
      }
    }
  }

  /** How many bytes are stored before event `k`: those accepted and not passed over. */
  function StoredBefore(h: seq<Event>, k: nat): int
    requires k <= |h|
  {
    |Accepted(h[..k])| - Passed(h[..k])
  }

  /** Every event went as the bytes then stored demand: a write was accepted if it fitted into
      `capacity` bytes and refused if it did not; a read, peek or skip was served if there were
      enough bytes and refused if there were not. */
  predicate IsBounded(h: seq<Event>, capacity: nat) {
    forall k :: 0 <= k < |h| ==> 0 <= StoredBefore(h, k) <= capacity && GoesWith(h[k], StoredBefore(h, k), capacity)
  }

  predicate GoesWith(e: Event, stored: int, capacity: nat) {
    match e
    case Wrote(b) => stored + |b| <= capacity
    case WriteRefused(n) => stored + n > capacity
    case Took(b) => |b| <= stored
    case Peeked(b) => |b| <= stored
    case Skipped(n) => n <= stored
    case ReadRefused(_, n) => n > stored
  }

  lemma {:induction false} ReplayIsBounded(h: seq<Event>, capacity: nat)
    requires Replay(h, capacity).Some?
    ensures IsBounded(h, capacity)
  {
    forall k | 0 <= k < |h|
      ensures 0 <= StoredBefore(h, k) <= capacity && GoesWith(h[k], StoredBefore(h, k), capacity)
    {
      ReplayOfPrefix(h, k, capacity);
      ReplayOfPrefix(h, k + 1, capacity);
      ReplayIsFifo(h[..k], capacity);
      assert h[..k + 1][..k] == h[..k] && h[..k + 1][k] == h[k];
    }
  }

  lemma {:induction false} ReplayOfPrefix(h: seq<Event>, k: nat, capacity: nat)
    requires k <= |h| && Replay(h, capacity).Some?
    ensures Replay(h[..k], capacity).Some?
  {
    if k == |h| {
      assert h[..k] == h;
    } else {
      ReplayOfPrefix(h[..|h| - 1], k, capacity);
      assert h[..|h| - 1][..k] == h[..k];
    }
  }

  lemma InvIsFifo(s: State)
    requires Inv(s)
    ensures HeadsValid(s) && IsFifo(s.history, Queue(s)) && IsBounded(s.history, s.size - 1)
  {
    ReplayIsFifo(s.history, s.size - 1);
    ReplayIsBounded(s.history, s.size - 1);
  }

  /** Nothing is lost, duplicated or reordered, whatever the interleaving: each
      completed read returned the next bytes of the accepted stream, and all that
      was accepted and not passed over is still stored. */
  lemma RunsAreFifo(s: State, run: seq<Action>)
    requires Initial(s) && ValidSize(s.size)
    requires Execute(s, run).Some?
    ensures var t := Execute(s, run).value;
      HeadsValid(t) && IsFifo(t.history, Queue(t)) && IsBounded(t.history, t.size - 1)
  {
    RunKeepsInv(s, run);
    InvIsFifo(Execute(s, run).value);
  }

  /** While both threads are copying, no byte the reader may still load is one the
      writer may still store: stale heads only underestimate the space. */
  lemma CopiesAreDisjoint(s: State, run: seq<Action>, i: nat, j: nat)
    requires Initial(s) && ValidSize(s.size)
    requires Execute(s, run).Some?
    requires Execute(s, run).value.writer.WriterCopying? && Execute(s, run).value.reader.ReaderCopying?
    requires i < Execute(s, run).value.reader.n && j < |Execute(s, run).value.writer.src|
    ensures var t := Execute(s, run).value;
      var from, to := ReadSlot(s.size, t.reader.r, t.reader.n, i),
                      WriteSlot(s.size, t.writer.w, |t.writer.src|, j);
      0 <= from < |t.buf| && 0 <= to < |t.buf| && from != to
  {
    RunKeepsInv(s, run);
    var t := Execute(s, run).value;
    ReadSlotWraps(s.size, t.reader.r, t.reader.n, i);
    WriteSlotWraps(s.size, t.writer.w, |t.writer.src|, j);
  }

  /** The guards on copying and publishing hold no thread up: every byte a thread has
      left to copy lies inside the buffer, and so does the head it publishes. */
  ghost predicate NoGuardBlocks(t: State) {
    && (forall i :: t.writer.WriterCopying? && i in t.writer.pending ==> Enabled(t, WriteByte(i)))
    && (forall i :: t.reader.ReaderCopying? && i in t.reader.pending ==> Enabled(t, ReadByte(i)))
    && (t.writer.WriterCopying? && t.writer.pending == {} ==>
          Enabled(t, WritePublish) && PublishedWriteHead(t.size, t.writer.w, |t.writer.src|) < t.size)
  }

  lemma WriterInBounds(t: State)
    requires HeadsValid(t) && WriterInv(t) && t.writer.WriterCopying?
    ensures forall i :: i in t.writer.pending ==> Enabled(t, WriteByte(i))
    ensures 0 <= PublishedWriteHead(t.size, t.writer.w, |t.writer.src|) < t.size
  {
    forall i | i in t.writer.pending
      ensures Enabled(t, WriteByte(i))
    {
      WriteSlotWraps(t.size, t.writer.w, |t.writer.src|, i);
    }
    MaskedHead(t.writer.w + |t.writer.src|, t.size);
  }

  lemma ReaderInBounds(t: State)
    requires HeadsValid(t) && ReaderInv(t) && t.reader.ReaderCopying?
    ensures forall i :: i in t.reader.pending ==> Enabled(t, ReadByte(i))
  {
    forall i | i in t.reader.pending
      ensures Enabled(t, ReadByte(i))
    {
      ReadSlotWraps(t.size, t.reader.r, t.reader.n, i);
    }
  }

  lemma {:induction false} CopiesStayInBounds(s: State, run: seq<Action>)
    requires Initial(s) && ValidSize(s.size)
    requires Execute(s, run).Some?
    ensures NoGuardBlocks(Execute(s, run).value)
  {
    RunKeepsInv(s, run);
    var t := Execute(s, run).value;
    if t.writer.WriterCopying? {
      WriterInBounds(t);
    }
    if t.reader.ReaderCopying? {
      ReaderInBounds(t);
    }
  }

  // Neither side ever waits for the other.

  /** How many steps the current call of the writer, or of the reader, still takes. */
  function StepsLeft(s: State, ofWriter: bool): nat {
    if ofWriter then
      match s.writer
      case WriterIdle => 0
      case WriterLoaded(src, _) => |src| + 2
      case WriterCopying(_, _, pending) => |pending| + 1
    else
      match s.reader
      case ReaderIdle => 0
      case ReaderLoaded(_, _, dst, _) => |dst| + 2
      case ReaderCopying(_, _, _, _, pending) => |pending| + 1
  }

  lemma {:induction false} BelowSize(n: nat)
    ensures |Below(n)| == n
  {
    if n > 0 {
      BelowSize(n - 1);
    }
  }

  lemma StepProgress(s: State, a: Action)
    requires Inv(s) && Enabled(s, a)
    ensures StepsLeft(s, a.OfWriter()) > 0 ==>
      StepsLeft(Apply(s, a), a.OfWriter()) < StepsLeft(s, a.OfWriter())
    ensures StepsLeft(Apply(s, a), !a.OfWriter()) == StepsLeft(s, !a.OfWriter())
  {
    if s.writer.WriterLoaded? {
      BelowSize(|s.writer.src|);
    }
    if s.reader.ReaderLoaded? {
      BelowSize(|s.reader.dst|);
    }
  }

  lemma WriterCanStep(s: State) returns (a: Action)
    requires Inv(s) && !s.writer.WriterIdle?
    ensures a.OfWriter() && Enabled(s, a)
  {
    if s.writer.WriterLoaded? {
      a := WriteCheck;
    } else if s.writer.pending == {} {
      a := WritePublish;
      MaskedHead(s.writer.w + |s.writer.src|, s.size);
    } else {
      var i :| i in s.writer.pending;
      a := WriteByte(i);
      WriteSlotWraps(s.size, s.writer.w, |s.writer.src|, i);
    }
  }

  lemma ReaderCanStep(s: State) returns (a: Action)
    requires Inv(s) && !s.reader.ReaderIdle?
    ensures !a.OfWriter() && Enabled(s, a)
  {
    if s.reader.ReaderLoaded? {
      a := ReadCheck;
    } else if s.reader.pending == {} {
      a := ReadFinish;
    } else {
      var i :| i in s.reader.pending;
      a := ReadByte(i);
      ReadSlotWraps(s.size, s.reader.r, s.reader.n, i);
    }
  }

  /** Both ends are wait-free: in every reachable state a thread inside a call can
      step, each of its steps brings that call strictly nearer its end, and no step
      of the other thread moves the end away. */
  lemma CallsAreWaitFree(s: State, run: seq<Action>)
    requires Initial(s) && ValidSize(s.size)
    requires Execute(s, run).Some?
    ensures var t := Execute(s, run).value;
      && (forall side :: StepsLeft(t, side) > 0 ==> exists a: Action :: a.OfWriter() == side && Enabled(t, a))
      && (forall a: Action, side :: Enabled(t, a) && StepsLeft(t, side) > 0 ==>
        if a.OfWriter() == side then StepsLeft(Apply(t, a), side) < StepsLeft(t, side)
        else StepsLeft(Apply(t, a), side) == StepsLeft(t, side))
  {
    RunKeepsInv(s, run);
    var t := Execute(s, run).value;
    if !t.writer.WriterIdle? {
      var a := WriterCanStep(t);
    }
    if !t.reader.ReaderIdle? {
      var a := ReaderCanStep(t);
    }
    forall a | Enabled(t, a)
      ensures StepsLeft(t, a.OfWriter()) > 0 ==>
        StepsLeft(Apply(t, a), a.OfWriter()) < StepsLeft(t, a.OfWriter())
      ensures StepsLeft(Apply(t, a), !a.OfWriter()) == StepsLeft(t, !a.OfWriter())
    {
      StepProgress(t, a);
    }
  }
}
