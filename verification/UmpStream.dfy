/** Walking a byte stream of Universal MIDI Packets (cmidi2.h:108-121, 721-729). */
module UmpStream {
  import opened Bits
  import opened BigEndian

  /** `cmidi2_ump_get_num_bytes`: the packet size for the message type in the top digit
      of the first word, and 255 for the types section 3 of M2-104-UM reserves. */
  function NumBytes(word: nat): (n: nat)
    ensures 4 <= n <= 255
  {
    match word / 0x1000_0000 % 16
    case 0 | 1 | 2 => 4
    case 4 | 3 => 8
    case 5 => 16
    case _ => 0xFF
  }

  /** The 32-bit words of a packet of each message type section 3 of M2-104-UM defines
      that this code knows. */
  function Words(messageType: nat): nat {
    match messageType
    case 0 => 1  // utility
    case 1 => 1  // system
    case 2 => 1  // MIDI 1.0 channel voice
    case 3 => 2  // 64-bit data
    case 4 => 2  // MIDI 2.0 channel voice
    case 5 => 4  // 128-bit data
    case _ => 0
  }

  predicate WellFormed(p: seq<byte>) {
    |p| >= 4 && p[0] / 16 <= 5 && |p| == 4 * Words(p[0] / 16)
  }

  predicate AllWellFormed(ps: seq<seq<byte>>) {
    forall i :: 0 <= i < |ps| ==> WellFormed(ps[i])
  }

  function Serialize(ps: seq<seq<byte>>): seq<byte> {
    if ps == [] then [] else ps[0] + Serialize(ps[1..])
  }

  /** Where the packets start when the first one starts at `from`. */
  function Starts(ps: seq<seq<byte>>, from: nat): seq<nat> {
    if ps == [] then [] else [from] + Starts(ps[1..], from + |ps[0]|)
  }

  /** The step `sequence_next` takes: it loads four bytes. */
  function StepAt(mem: seq<byte>, pos: nat): (n: nat)
    requires pos + 4 <= |mem|
    ensures 4 <= n <= 255
  {
    NumBytes(Value(mem[pos..pos + 4]))
  }

  /** The positions the iterator visits from `pos` on, up to the first one whose four
      bytes are not all in memory; from there the source reads what it does not own. */
  function Walk(mem: seq<byte>, end: nat, pos: nat): (visited: seq<nat>)
    requires end <= |mem|
    ensures |visited| * 4 < end - pos + 4 || pos >= end
    ensures forall i :: 0 <= i < |visited| ==> pos <= visited[i] < end
    decreases end - pos
  {
    if pos >= end then []
    else if pos + 4 > |mem| then [pos]
    else [pos] + Walk(mem, end, pos + StepAt(mem, pos))
  }

  /** The walk loads no byte at `limit` or beyond. */
  predicate LoadsBelow(mem: seq<byte>, end: nat, pos: nat, limit: nat)
    requires end <= |mem|
  {
    forall i :: 0 <= i < |Walk(mem, end, pos)| ==> Walk(mem, end, pos)[i] + 4 <= limit
  }

  lemma WalkStep(mem: seq<byte>, end: nat, pos: nat)
    requires pos < end <= |mem| && pos + 4 <= |mem|
    ensures Walk(mem, end, pos) == [pos] + Walk(mem, end, pos + StepAt(mem, pos))
  {
  }

  lemma LoadsStep(mem: seq<byte>, end: nat, pos: nat, limit: nat)
    requires pos < end <= |mem| && pos + 4 <= |mem|
    ensures LoadsBelow(mem, end, pos, limit) <==>
      pos + 4 <= limit && LoadsBelow(mem, end, pos + StepAt(mem, pos), limit)
  {
    var here, rest := Walk(mem, end, pos), Walk(mem, end, pos + StepAt(mem, pos));
    assert here == [pos] + rest;
    forall i | 0 <= i < |rest|
      ensures here[i + 1] == rest[i]
    {
    }
    if LoadsBelow(mem, end, pos, limit) {
      forall i | 0 <= i < |rest|
        ensures rest[i] + 4 <= limit
      {
        assert here[i + 1] + 4 <= limit;
      }
      assert here[0] + 4 <= limit;
    }
  }

  /** `CMIDI2_UMP_SEQUENCE_FOREACH`, collecting what it visits, where its loads stay in
      memory. On any bytes at all it ends, because every step advances by at least 4. */
  method SequenceForEach(mem: seq<byte>, numBytes: nat) returns (visited: seq<nat>)
    requires numBytes <= |mem| && LoadsBelow(mem, numBytes, 0, |mem|)
    ensures visited == Walk(mem, numBytes, 0)
    ensures InSteps(mem, numBytes, 0, visited)
  {
    visited := [];
    var iter := 0;
    while iter < numBytes
      invariant LoadsBelow(mem, numBytes, iter, |mem|)
      invariant visited + Walk(mem, numBytes, iter) == Walk(mem, numBytes, 0)
      decreases numBytes - iter
    {
      LoadsHere(mem, numBytes, iter);
      var next := SequenceNext(mem, iter);
      MovedOver(visited, iter, Walk(mem, numBytes, next));
      visited := visited + [iter];
      iter := next;
    }
    assert Walk(mem, numBytes, iter) == [];
    assert visited == visited + [] == Walk(mem, numBytes, 0);
    VisitedInSteps(mem, numBytes, visited);
  }

  lemma VisitedInSteps(mem: seq<byte>, end: nat, visited: seq<nat>)
    requires end <= |mem| && LoadsBelow(mem, end, 0, |mem|) && visited == Walk(mem, end, 0)
    ensures InSteps(mem, end, 0, visited)
  {
    WalkInSteps(mem, end, 0);
  }

  /** From `pos`, each position is one step behind the one before, and the step from the last
      one reaches the end. */
  predicate InSteps(mem: seq<byte>, end: nat, pos: nat, visited: seq<nat>) {
    && (visited == [] <==> pos >= end)
    && (visited != [] ==> visited[0] == pos)
    && forall i :: 0 <= i < |visited| ==> StepTaken(mem, end, visited, i)
  }

  predicate StepTaken(mem: seq<byte>, end: nat, visited: seq<nat>, i: nat)
    requires i < |visited|
  {
    && visited[i] < end && visited[i] + 4 <= |mem|
    && var next := visited[i] + StepAt(mem, visited[i]);
       if i + 1 < |visited| then visited[i + 1] == next else next >= end
  }

  lemma {:induction false} WalkInSteps(mem: seq<byte>, end: nat, pos: nat)
    requires end <= |mem| && LoadsBelow(mem, end, pos, |mem|)
    ensures InSteps(mem, end, pos, Walk(mem, end, pos))
    decreases end - pos
  {
    if pos < end {
      LoadsHere(mem, end, pos);
      var next := pos + StepAt(mem, pos);
      WalkInSteps(mem, end, next);
      OneStepBefore(mem, end, pos, Walk(mem, end, next));
    }
  }

  lemma OneStepBefore(mem: seq<byte>, end: nat, pos: nat, rest: seq<nat>)
    requires pos < end && pos + 4 <= |mem| && InSteps(mem, end, pos + StepAt(mem, pos), rest)
    ensures InSteps(mem, end, pos, [pos] + rest)
  {
    var all := [pos] + rest;
    forall i | 0 <= i < |all|
      ensures StepTaken(mem, end, all, i)
    {
      if i > 0 {
        assert StepTaken(mem, end, rest, i - 1) && all[i] == rest[i - 1];
      }
    }
  }

  lemma LoadsHere(mem: seq<byte>, end: nat, pos: nat)
    requires pos < end <= |mem| && LoadsBelow(mem, end, pos, |mem|)
    ensures pos + 4 <= |mem| && LoadsBelow(mem, end, pos + StepAt(mem, pos), |mem|)
    ensures Walk(mem, end, pos) == [pos] + Walk(mem, end, pos + StepAt(mem, pos))
  {
    assert Walk(mem, end, pos)[0] == pos;
    WalkStep(mem, end, pos);
    LoadsStep(mem, end, pos, |mem|);
  }

  lemma MovedOver(visited: seq<nat>, pos: nat, rest: seq<nat>)
    ensures visited + ([pos] + rest) == (visited + [pos]) + rest
  {
  }

  /** `cmidi2_ump_sequence_next`. */
  method SequenceNext(mem: seq<byte>, pos: nat) returns (next: nat)
    requires pos + 4 <= |mem|
    ensures next == pos + StepAt(mem, pos)
    ensures next == pos + (if mem[pos] < 0x30 then 4 else if mem[pos] < 0x50 then 8
                           else if mem[pos] < 0x60 then 16 else 255)
  {
    StepOfFirstByte(mem[pos..pos + 4]);
    assert mem[pos..pos + 4][0] == mem[pos];
    var first := mem[pos..pos + 4];
    var word := ReadUint32Bytes(first);
    assert first[..4] == first;
    next := pos + NumBytes(word);
  }

  /** Only the top digit of the first byte decides the step. */
  lemma StepOfFirstByte(b: seq<byte>)
    requires |b| == 4
    ensures Value(b) / 0x1000_0000 % 16 == b[0] / 16
  {
    ValueOfFour(b);
    var first: nat := b[0];
    TopDigit(first, Value(b) - 0x100_0000 * first);
  }

  lemma TopDigit(first: nat, rest: nat)
    requires first < 256 && rest < 0x100_0000
    ensures (0x100_0000 * first + rest) / 0x1000_0000 % 16 == first / 16
  {
    assert (0x100_0000 * first + rest) / 0x1000_0000 == first / 16;
  }

  /** The head of a stretch that holds serialised packets is the first of them. */
  lemma FirstPacket(mem: seq<byte>, end: nat, pos: nat, ps: seq<seq<byte>>)
    requires pos <= end <= |mem| && mem[pos..end] == Serialize(ps)
    requires AllWellFormed(ps) && ps != []
    ensures pos + 4 <= pos + |ps[0]| <= end && mem[pos..pos + |ps[0]|] == ps[0]
    ensures StepAt(mem, pos) == |ps[0]|
    ensures mem[pos + |ps[0]|..end] == Serialize(ps[1..])
  {
    var p := ps[0];
    var stretch := mem[pos..end];
    assert WellFormed(p) && stretch == p + Serialize(ps[1..]);
    assert mem[pos..pos + |p|] == stretch[..|p|] == p;
    assert mem[pos..pos + 4] == p[..4];
    StepOfFirstByte(p[..4]);
    assert mem[pos + |p|..end] == stretch[|p|..] == Serialize(ps[1..]);
  }

  /** The walk over serialised packets visits their starts, in order, and nothing else, and
      loads nothing past their end, even where memory ends with them. */
  lemma {:induction false} WalkVisitsStarts(mem: seq<byte>, end: nat, pos: nat, ps: seq<seq<byte>>)
    requires pos <= end <= |mem| && mem[pos..end] == Serialize(ps)
    requires AllWellFormed(ps)
    ensures Walk(mem, end, pos) == Starts(ps, pos)
    ensures LoadsBelow(mem, end, pos, end)
    decreases ps
  {
    if ps != [] {
      FirstPacket(mem, end, pos, ps);
      WalkVisitsStarts(mem, end, pos + |ps[0]|, ps[1..]);
      WalkStep(mem, end, pos);
      StepInside(mem, end, pos);
    }
  }

  lemma StepInside(mem: seq<byte>, end: nat, pos: nat)
    requires pos + 4 <= end <= |mem| && LoadsBelow(mem, end, pos + StepAt(mem, pos), end)
    ensures LoadsBelow(mem, end, pos, end)
  {
    LoadsStep(mem, end, pos, end);
  }

  /** The walk meets only known message types and its last step ends exactly at `end`. */
  predicate LandsExactly(mem: seq<byte>, end: nat, pos: nat)
    requires end <= |mem|
    decreases end - pos
  {
    pos == end || (pos + 4 <= end && mem[pos] / 16 <= 5 && LandsExactly(mem, end, pos + StepAt(mem, pos)))
  }

  /** The packets a clean walk cuts the memory into. */
  function Packets(mem: seq<byte>, end: nat, pos: nat): seq<seq<byte>>
    requires end <= |mem| && LandsExactly(mem, end, pos)
    decreases end - pos
  {
    if pos == end then []
    else
      var next := pos + StepAt(mem, pos);
      LandsWithin(mem, end, next);
      [mem[pos..next]] + Packets(mem, end, next)
  }

  lemma LandsWithin(mem: seq<byte>, end: nat, pos: nat)
    requires end <= |mem| && LandsExactly(mem, end, pos)
    ensures pos <= end
  {
  }

  lemma {:induction false} PacketsSerialize(mem: seq<byte>, end: nat, pos: nat)
    requires end <= |mem| && LandsExactly(mem, end, pos)
    ensures pos <= end
    ensures AllWellFormed(Packets(mem, end, pos))
    ensures Serialize(Packets(mem, end, pos)) == mem[pos..end]
    decreases end - pos
  {
    if pos < end {
      var next := pos + StepAt(mem, pos);
      PacketsSerialize(mem, end, next);
      CutIsWellFormed(mem, end, pos);
      SerializeNext(mem[pos..next], Packets(mem, end, next));
      TwoSlices(mem, pos, next, end);
    }
  }

  lemma TwoSlices(mem: seq<byte>, pos: nat, next: nat, end: nat)
    requires pos <= next <= end <= |mem|
    ensures mem[pos..next] + mem[next..end] == mem[pos..end]
  {
  }

  lemma CutIsWellFormed(mem: seq<byte>, end: nat, pos: nat)
    requires pos + 4 <= end <= |mem| && mem[pos] / 16 <= 5 && pos + StepAt(mem, pos) <= end
    ensures WellFormed(mem[pos..pos + StepAt(mem, pos)])
  {
    StepOfFirstByte(mem[pos..pos + 4]);
    assert mem[pos..pos + 4][0] == mem[pos] == mem[pos..pos + StepAt(mem, pos)][0];
  }

  lemma SerializeNext(p: seq<byte>, rest: seq<seq<byte>>)
    ensures Serialize([p] + rest) == p + Serialize(rest)
    ensures WellFormed(p) && AllWellFormed(rest) ==> AllWellFormed([p] + rest)
  {
    assert ([p] + rest)[1..] == rest;
  }

  lemma {:induction false} SerializedLands(mem: seq<byte>, end: nat, pos: nat, ps: seq<seq<byte>>)
    requires pos <= end <= |mem| && mem[pos..end] == Serialize(ps)
    requires AllWellFormed(ps)
    ensures LandsExactly(mem, end, pos) && Packets(mem, end, pos) == ps
    decreases ps
  {
    if ps != [] {
      FirstPacket(mem, end, pos, ps);
      FirstType(mem, pos, ps[0]);
      SerializedLands(mem, end, pos + |ps[0]|, ps[1..]);
      LandsNext(mem, end, pos, ps[0]);
      assert ps == [ps[0]] + ps[1..];
    }
  }

  lemma LandsNext(mem: seq<byte>, end: nat, pos: nat, p: seq<byte>)
    requires pos + 4 <= pos + |p| <= end <= |mem| && mem[pos] / 16 <= 5
    requires mem[pos..pos + |p|] == p && StepAt(mem, pos) == |p| && LandsExactly(mem, end, pos + |p|)
    ensures LandsExactly(mem, end, pos) && Packets(mem, end, pos) == [p] + Packets(mem, end, pos + |p|)
  {
  }

  lemma FirstType(mem: seq<byte>, pos: nat, p: seq<byte>)
    requires WellFormed(p) && pos + |p| <= |mem| && mem[pos..pos + |p|] == p
    ensures mem[pos] / 16 <= 5
  {
    assert mem[pos] == p[0];
  }

  /** Printing and walking are inverse: a stretch of memory is a serialised list of
      well-formed packets exactly when the walk lands at its end, and then cutting it
      where the walk goes is the only way to read it. */
  lemma WalkParsesExactly(mem: seq<byte>, end: nat)
    requires end <= |mem|
    ensures LandsExactly(mem, end, 0) <==>
      exists ps: seq<seq<byte>> :: AllWellFormed(ps) && Serialize(ps) == mem[..end]
    ensures forall ps: seq<seq<byte>> :: AllWellFormed(ps) && Serialize(ps) == mem[..end] ==>
      LandsExactly(mem, end, 0) && Packets(mem, end, 0) == ps
  {
    if LandsExactly(mem, end, 0) {
      PacketsSerialize(mem, end, 0);
      assert mem[0..end] == mem[..end];
    }
    forall ps: seq<seq<byte>> | AllWellFormed(ps) && Serialize(ps) == mem[..end]
      ensures LandsExactly(mem, end, 0) && Packets(mem, end, 0) == ps
    {
      assert mem[0..end] == mem[..end];
      SerializedLands(mem, end, 0, ps);
    }
  }

  /** On any bytes: the walk loads past the end exactly when the last position it visits
      is one of the last three; the earlier ones are too far before it. */
  lemma {:induction false} LoadsPastEndExactly(mem: seq<byte>, end: nat, pos: nat)
    requires pos < end <= |mem|
    ensures Walk(mem, end, pos) != []
    ensures LoadsBelow(mem, end, pos, end) <==> LastOf(Walk(mem, end, pos)) + 4 <= end
    decreases end - pos
  {
    if pos + 4 <= |mem| {
      var next := pos + StepAt(mem, pos);
      WalkStep(mem, end, pos);
      LoadsStep(mem, end, pos, end);
      if next < end {
        LoadsPastEndExactly(mem, end, next);
        LastOfTail(pos, Walk(mem, end, next));
      }
    }
  }

  function LastOf(visited: seq<nat>): nat
    requires visited != []
  {
    visited[|visited| - 1]
  }

  lemma LastOfTail(pos: nat, rest: seq<nat>)
    requires rest != []
    ensures LastOf([pos] + rest) == LastOf(rest)
  {
  }

  // What a caller can tell from the length alone.

  /** Some number of steps of 4, and then as many of 255 as it takes, lead to `pos`: 255 is
      one less than a multiple of 4. */
  predicate Reachable(pos: nat) {
    pos >= 255 * Odd(pos)
  }

  /** How many steps of 255 lead to `pos`, at the least. */
  function Odd(pos: nat): nat {
    if pos % 4 == 0 then 0 else 4 - pos % 4
  }

  lemma ReachableStep(pos: nat, step: nat)
    requires Reachable(pos) && step in {4, 8, 16, 255}
    ensures Reachable(pos + step)
  {
  }

  lemma {:induction false} VisitsReachable(mem: seq<byte>, end: nat, pos: nat)
    requires end <= |mem| && Reachable(pos)
    ensures forall i :: 0 <= i < |Walk(mem, end, pos)| ==> Reachable(Walk(mem, end, pos)[i])
    decreases end - pos
  {
    if pos < end && pos + 4 <= |mem| {
      var next := pos + StepAt(mem, pos);
      ReachableStep(pos, StepAt(mem, pos));
      VisitsReachable(mem, end, next);
      WalkStep(mem, end, pos);
    }
  }

  /** Zeros as far as `turn`, and then the first byte of a reserved message type. */
  function Zigzag(length: nat, turn: nat): (mem: seq<byte>)
    ensures |mem| == length
  {
    seq(length, i => if i < turn then 0 else 0xF0)
  }

  lemma ZigzagStep(length: nat, turn: nat, pos: nat)
    requires pos + 4 <= length
    ensures StepAt(Zigzag(length, turn), pos) == if pos < turn then 4 else 255
  {
    var mem := Zigzag(length, turn);
    StepOfFirstByte(mem[pos..pos + 4]);
    assert mem[pos..pos + 4][0] == mem[pos];
  }

  predicate Visits(mem: seq<byte>, end: nat, pos: nat, target: nat)
    requires end <= |mem|
  {
    target in Walk(mem, end, pos)
  }

  lemma VisitsStep(mem: seq<byte>, end: nat, pos: nat, next: nat, target: nat)
    requires pos < end && pos + 4 <= |mem| && end <= |mem| && next == pos + StepAt(mem, pos)
    ensures Visits(mem, end, pos, target) <==> target == pos || Visits(mem, end, next, target)
  {
    WalkStep(mem, end, pos);
  }

  lemma {:induction false} OddSteps(end: nat, turn: nat, pos: nat, odd: nat, target: nat)
    requires turn <= pos && target == pos + 255 * odd && target < end
    ensures Visits(Zigzag(end + 3, turn), end, pos, target)
    decreases odd
  {
    ZigzagStep(end + 3, turn, pos);
    VisitsStep(Zigzag(end + 3, turn), end, pos, pos + 255, target);
    if odd > 0 {
      OddSteps(end, turn, pos + 255, odd - 1, target);
    }
  }

  lemma {:induction false} EvenSteps(end: nat, turn: nat, pos: nat, even: nat, odd: nat, target: nat)
    requires turn == pos + 4 * even && target == turn + 255 * odd && target < end
    ensures Visits(Zigzag(end + 3, turn), end, pos, target)
    decreases even
  {
    if even == 0 {
      OddSteps(end, turn, pos, odd, target);
    } else {
      ZigzagStep(end + 3, turn, pos);
      VisitsStep(Zigzag(end + 3, turn), end, pos, pos + 4, target);
      EvenSteps(end, turn, pos + 4, even - 1, odd, target);
    }
  }

  lemma ReachableVisited(end: nat, target: nat) returns (mem: seq<byte>)
    requires target < end && Reachable(target)
    ensures |mem| == end + 3 && Visits(mem, end, 0, target)
  {
    var odd := Odd(target);
    var turn := target - 255 * odd;
    assert turn % 4 == 0;
    mem := Zigzag(end + 3, turn);
    EvenSteps(end, turn, 0, turn / 4, odd, target);
  }

  lemma VisitedReachable(mem: seq<byte>, end: nat, target: nat)
    requires end <= |mem| && Visits(mem, end, 0, target)
    ensures Reachable(target)
  {
    VisitsReachable(mem, end, 0);
  }

  /** On some bytes the walk visits `target`, exactly when steps can lead there. */
  lemma VisitedExactly(end: nat, target: nat)
    requires target < end
    ensures (exists mem: seq<byte> :: |mem| == end + 3 && Visits(mem, end, 0, target)) <==> Reachable(target)
  {
    if Reachable(target) {
      var mem := ReachableVisited(end, target);
    }
    if mem: seq<byte> :| |mem| == end + 3 && Visits(mem, end, 0, target) {
      VisitedReachable(mem, end, target);
    }
  }

  /** Whatever the bytes, no load reaches beyond three bytes past the end. */
  lemma LoadsWithinThree(mem: seq<byte>, end: nat)
    requires end <= |mem|
    ensures LoadsBelow(mem, end, 0, end + 3)
  {
  }

  predicate CanReachPast(end: nat, j: nat)
    requires j < 3
  {
    exists pos: nat :: pos < end < pos + 4 - j && Reachable(pos)
  }

  /** On some bytes a load reaches past `end + j`, for `j` below 3, exactly when steps can
      lead to one of the last positions before the end. */
  lemma LoadsReachExactly(end: nat, j: nat)
    requires j < 3
    ensures (exists mem: seq<byte> :: |mem| == end + 3 && !LoadsBelow(mem, end, 0, end + j))
      <==> CanReachPast(end, j)
  {
    if CanReachPast(end, j) {
      var pos: nat :| pos < end < pos + 4 - j && Reachable(pos);
      var mem := ReachableVisited(end, pos);
      var i :| 0 <= i < |Walk(mem, end, 0)| && Walk(mem, end, 0)[i] == pos;
      assert !LoadsBelow(mem, end, 0, end + j);
    }
    if mem: seq<byte> :| |mem| == end + 3 && !LoadsBelow(mem, end, 0, end + j) {
      var i :| 0 <= i < |Walk(mem, end, 0)| && Walk(mem, end, 0)[i] + 4 > end + j;
      VisitedReachable(mem, end, Walk(mem, end, 0)[i]);
    }
  }

  /** So a caller who hands over whole 32-bit words, and fewer than 64 of them, is safe
      whatever they hold, and no other caller is. */
  lemma SafeLengthsExactly(end: nat)
    ensures (forall mem: seq<byte> :: |mem| == end + 3 ==> LoadsBelow(mem, end, 0, end))
      <==> end % 4 == 0 && end < 256
  {
    LoadsReachExactly(end, 0);
    CanReachPastEnd(end);
  }

  lemma CanReachPastEnd(end: nat)
    ensures CanReachPast(end, 0) <==> end % 4 != 0 || end >= 256
  {
    if end % 4 != 0 {
      assert Reachable(end - end % 4);
    } else if end >= 256 {
      assert Reachable(end - 1);
    }
  }

  /** One byte of zero is loaded as four. */
  lemma OneByteLoadsFour()
    ensures Walk([0, 0, 0, 0], 1, 0) == [0] && !LoadsBelow([0, 0, 0, 0], 1, 0, 1 + 2)
  {
    WalkStep([0, 0, 0, 0], 1, 0);
    assert Walk([0, 0, 0, 0], 1, 0)[0] + 4 > 3;
  }

  /** The visited positions start packets of known message types. */
  predicate AllKnown(mem: seq<byte>, visited: seq<nat>) {
    forall i :: 0 <= i < |visited| ==> visited[i] < |mem| && mem[visited[i]] / 16 <= 5
  }

  lemma AllKnownTail(mem: seq<byte>, pos: nat, rest: seq<nat>)
    requires AllKnown(mem, [pos] + rest)
    ensures pos < |mem| && mem[pos] / 16 <= 5 && AllKnown(mem, rest)
  {
    var here := [pos] + rest;
    assert here[0] == pos;
    assert forall i :: 0 <= i < |rest| ==> here[i + 1] == rest[i];
  }

  lemma KnownStep(mem: seq<byte>, end: nat, pos: nat) returns (next: nat)
    requires pos < end <= |mem| && end % 4 == 0 && pos % 4 == 0 && AllKnown(mem, Walk(mem, end, pos))
    ensures pos + 4 <= end && next == pos + StepAt(mem, pos) && next % 4 == 0
    ensures AllKnown(mem, Walk(mem, end, next))
  {
    NextWord(pos, end);
    next := pos + StepAt(mem, pos);
    WalkStep(mem, end, pos);
    AllKnownTail(mem, pos, Walk(mem, end, next));
    KnownSize(mem, pos);
  }

  lemma NextWord(pos: nat, end: nat)
    requires pos < end && end % 4 == 0 && pos % 4 == 0
    ensures pos + 4 <= end
  {
  }

  lemma KnownSize(mem: seq<byte>, pos: nat)
    requires pos + 4 <= |mem| && mem[pos] / 16 <= 5 && pos % 4 == 0
    ensures (pos + StepAt(mem, pos)) % 4 == 0
  {
    StepOfFirstByte(mem[pos..pos + 4]);
    assert mem[pos..pos + 4][0] == mem[pos];
    assert StepAt(mem, pos) in {4, 8, 16};
  }

  /** Known message types alone keep the loads inside a stream of whole 32-bit words, even
      one that ends in the middle of a packet. */
  lemma {:induction false} KnownTypesLoadInside(mem: seq<byte>, end: nat, pos: nat)
    requires end <= |mem| && end % 4 == 0 && pos % 4 == 0 && AllKnown(mem, Walk(mem, end, pos))
    ensures LoadsBelow(mem, end, pos, end)
    decreases end - pos
  {
    if pos < end {
      var next := KnownStep(mem, end, pos);
      KnownTypesLoadInside(mem, end, next);
      StepInside(mem, end, pos);
    }
  }
}
