/** When a run of audio callbacks stalls: a block that finds no room is dropped, and if
    the bytes left are fewer than every later request asks for, nothing moves again. */
module AudioStalls {
  import opened Bits
  import opened RingArithmetic
  import opened AudioPipeline
  import opened AudioRuns
  import opened Divisors

  lemma ServeAppend(requests: seq<nat>, n: nat, capacity: nat, plugin: nat -> seq<byte>)
    ensures Serve(requests + [n], capacity, plugin) == Next(Serve(requests, capacity, plugin), capacity, n, plugin)
  {
    assert (requests + [n])[..|requests + [n]| - 1] == requests;
  }

  // Refusals.

  lemma NextHasRoom(t: Totals, n: nat, capacity: nat, plugin: nat -> seq<byte>, size: nat)
    requires Blocks(plugin, size) && capacity + 1 >= size + n
    ensures Next(t, capacity, n, plugin).refusals == t.refusals
  {
    assert |plugin(t.processCalls)| == size;
  }

  lemma {:induction false} RoomForEvery(requests: seq<nat>, n: nat, capacity: nat, plugin: nat -> seq<byte>, size: nat)
    requires Blocks(plugin, size) && AllAtMost(requests, n) && capacity + 1 >= size + n
    ensures Serve(requests, capacity, plugin).refusals == 0
  {
    if requests != [] {
      var before := requests[..|requests| - 1];
      RoomForEvery(before, n, capacity, plugin, size);
      NextHasRoom(Serve(before, capacity, plugin), requests[|requests| - 1], capacity, plugin, size);
    }
  }

  /** Requests of one byte empty the queue a byte at a time. */
  lemma {:induction false} DrainTo(requests: seq<nat>, v: nat, n: nat, capacity: nat, plugin: nat -> seq<byte>)
    returns (more: seq<nat>)
    requires AllAtMost(requests, n) && n >= 1 && v <= |Serve(requests, capacity, plugin).queue|
    ensures AllAtMost(more, n) && |Serve(more, capacity, plugin).queue| == v
    decreases |Serve(requests, capacity, plugin).queue| - v
  {
    more := requests;
    if v < |Serve(requests, capacity, plugin).queue| {
      ServeAppend(requests, 1, capacity, plugin);
      more := DrainTo(requests + [1], v, n, capacity, plugin);
    }
  }

  /** Requests of up to `n` bytes can leave any queue shorter than `n` that the ring holds. */
  lemma {:induction false} ReachLength(v: nat, n: nat, capacity: nat, plugin: nat -> seq<byte>, size: nat)
    returns (requests: seq<nat>)
    requires size >= 1 && Blocks(plugin, size) && size <= capacity && v < n && v <= capacity
    ensures AllAtMost(requests, n) && |Serve(requests, capacity, plugin).queue| == v
    decreases v
  {
    if v < size {
      assert |plugin(0)| == size;
      ServeOne(1, capacity, plugin);
      requests := DrainTo([1], v, n, capacity, plugin);
    } else {
      var shorter := ReachLength(v - size, n, capacity, plugin, size);
      ServeAppend(shorter, n, capacity, plugin);
      assert |plugin(Serve(shorter, capacity, plugin).processCalls)| == size;
      requests := shorter + [n];
    }
  }

  /** Some run of requests of up to `n` bytes ends with a block that found no room. */
  lemma RefusalIsReachable(n: nat, capacity: nat, plugin: nat -> seq<byte>, size: nat)
    returns (requests: seq<nat>)
    requires n >= 1 && size >= 1 && Blocks(plugin, size) && capacity + 1 < size + n
    ensures AllAtMost(requests, n) && |Serve(requests, capacity, plugin).queue| < n
    ensures |Serve(requests, capacity, plugin).queue| + size > capacity
  {
    if capacity < size {
      requests := [];
    } else {
      requests := ReachLength(capacity + 1 - size, n, capacity, plugin, size);
    }
  }

  /** No run of requests of up to `n` bytes refuses a block. */
  ghost predicate NeverRefuses(n: nat, capacity: nat, plugin: nat -> seq<byte>) {
    forall requests: seq<nat> :: AllAtMost(requests, n) ==> Serve(requests, capacity, plugin).refusals == 0
  }

  /** No block is ever refused, over any run of requests of up to `n` bytes, exactly when
      the ring can hold a block beside one byte less than a request. */
  lemma RefusalsExactly(n: nat, capacity: nat, plugin: nat -> seq<byte>, size: nat)
    requires n >= 1 && size >= 1 && Blocks(plugin, size)
    ensures NeverRefuses(n, capacity, plugin) <==> capacity >= size + n - 1
  {
    if capacity >= size + n - 1 {
      forall requests: seq<nat> | AllAtMost(requests, n)
        ensures Serve(requests, capacity, plugin).refusals == 0
      {
        RoomForEvery(requests, n, capacity, plugin, size);
      }
    } else {
      var requests := RefusalIsReachable(n, capacity, plugin, size);
      ServeAppend(requests, n, capacity, plugin);
      assert |plugin(Serve(requests, capacity, plugin).processCalls)| == size;
      assert AllAtMost(requests + [n], n);
    }
  }

  // Stalls.

  /** Between `t` and `u`, `count` callbacks were refused their block and came back empty. */
  predicate OnlyRefused(t: Totals, u: Totals, count: nat) {
    && u.queue == t.queue && u.delivered == t.delivered
    && u.refusals == t.refusals + count && u.shorts == t.shorts + count
  }

  lemma NextRefused(t: Totals, u: Totals, count: nat, n: nat, capacity: nat, plugin: nat -> seq<byte>, size: nat)
    requires Blocks(plugin, size) && |t.queue| + size > capacity && n > |t.queue| && OnlyRefused(t, u, count)
    ensures OnlyRefused(t, Next(u, capacity, n, plugin), count + 1)
  {
    assert |plugin(u.processCalls)| == size;
  }

  /** Once there is no room for a block, requests above what is stored change nothing,
      however many there are: each is refused and comes back empty. */
  lemma {:induction false} RefusalIsForEver(requests: seq<nat>, later: seq<nat>, capacity: nat,
                                           plugin: nat -> seq<byte>, size: nat)
    requires Blocks(plugin, size) && |Serve(requests, capacity, plugin).queue| + size > capacity
    requires AllAbove(later, |Serve(requests, capacity, plugin).queue|)
    ensures OnlyRefused(Serve(requests, capacity, plugin), Serve(requests + later, capacity, plugin), |later|)
  {
    if later == [] {
      assert requests + later == requests;
    } else {
      var before, last := later[..|later| - 1], later[|later| - 1];
      RefusalIsForEver(requests, before, capacity, plugin, size);
      assert requests + later == (requests + before) + [last];
      ServeAppend(requests + before, last, capacity, plugin);
      NextRefused(Serve(requests, capacity, plugin), Serve(requests + before, capacity, plugin), |before|,
                  last, capacity, plugin, size);
    }
  }

  function Constant(n: nat, count: nat): seq<nat> {
    seq(count, _ => n)
  }

  lemma ConstantNext(n: nat, count: nat)
    ensures Constant(n, count + 1) == Constant(n, count) + [n]
  {
  }

  /** After `requests`, asking for `n` bytes again and again never delivers another byte. */
  ghost predicate StallsAfter(requests: seq<nat>, n: nat, capacity: nat, plugin: nat -> seq<byte>) {
    forall count: nat ::
      Serve(requests + Constant(n, count), capacity, plugin).delivered == Serve(requests, capacity, plugin).delivered
  }

  /** No block is refused while `n` bytes are asked for again and again. */
  ghost predicate NoneRefusedAfter(requests: seq<nat>, n: nat, capacity: nat, plugin: nat -> seq<byte>) {
    forall count: nat ::
      Serve(requests + Constant(n, count), capacity, plugin).refusals == Serve(requests, capacity, plugin).refusals
  }

  /** No run of requests of up to `n` bytes comes to a stall. */
  ghost predicate NeverStalls(n: nat, capacity: nat, plugin: nat -> seq<byte>) {
    forall requests: seq<nat> :: AllAtMost(requests, n) ==> !StallsAfter(requests, n, capacity, plugin)
  }

  lemma ConstantStep(requests: seq<nat>, n: nat, count: nat, capacity: nat, plugin: nat -> seq<byte>)
    ensures Serve(requests + Constant(n, count + 1), capacity, plugin)
      == Next(Serve(requests + Constant(n, count), capacity, plugin), capacity, n, plugin)
  {
    ConstantNext(n, count);
    assert requests + Constant(n, count + 1) == (requests + Constant(n, count)) + [n];
    ServeAppend(requests + Constant(n, count), n, capacity, plugin);
  }

  /** Where no block is refused, each callback delivers or brings the queue nearer to `n`. */
  lemma {:induction false} QueueGrows(requests: seq<nat>, n: nat, count: nat, capacity: nat,
                                     plugin: nat -> seq<byte>, size: nat)
    requires n >= 1 && size >= 1 && Blocks(plugin, size)
    requires NoneRefusedAfter(requests, n, capacity, plugin) && StallsAfter(requests, n, capacity, plugin)
    ensures |Serve(requests + Constant(n, count), capacity, plugin).queue| >= count
  {
    if count > 0 {
      QueueGrows(requests, n, count - 1, capacity, plugin, size);
      ConstantStep(requests, n, count - 1, capacity, plugin);
      var t := Serve(requests + Constant(n, count - 1), capacity, plugin);
      var u := Serve(requests + Constant(n, count), capacity, plugin);
      assert |plugin(t.processCalls)| == size;
      assert u.delivered == t.delivered && u.refusals == t.refusals;
    }
  }

  lemma NoStallWithoutRefusal(requests: seq<nat>, n: nat, capacity: nat, plugin: nat -> seq<byte>, size: nat)
    requires n >= 1 && size >= 1 && Blocks(plugin, size) && NoneRefusedAfter(requests, n, capacity, plugin)
    ensures !StallsAfter(requests, n, capacity, plugin)
  {
    if StallsAfter(requests, n, capacity, plugin) {
      assert Serve(requests + Constant(n, n + 1), capacity, plugin).delivered
        == Serve(requests + Constant(n, n), capacity, plugin).delivered;
      QueueGrows(requests, n, n, capacity, plugin, size);
      ConstantStep(requests, n, n, capacity, plugin);
    }
  }

  lemma {:induction false} RoomFromHere(requests: seq<nat>, n: nat, count: nat, capacity: nat,
                                       plugin: nat -> seq<byte>, size: nat)
    requires Blocks(plugin, size) && capacity + 1 >= size + n
    ensures Serve(requests + Constant(n, count), capacity, plugin).refusals
      == Serve(requests, capacity, plugin).refusals
  {
    if count == 0 {
      assert requests + Constant(n, 0) == requests;
    } else {
      RoomFromHere(requests, n, count - 1, capacity, plugin, size);
      ConstantStep(requests, n, count - 1, capacity, plugin);
      NextHasRoom(Serve(requests + Constant(n, count - 1), capacity, plugin), n, capacity, plugin, size);
    }
  }

  /** A queue too long for a block and too short for a request is a stall. */
  lemma RefusalStalls(requests: seq<nat>, n: nat, capacity: nat, plugin: nat -> seq<byte>, size: nat)
    requires Blocks(plugin, size) && |Serve(requests, capacity, plugin).queue| < n
    requires |Serve(requests, capacity, plugin).queue| + size > capacity
    ensures StallsAfter(requests, n, capacity, plugin)
  {
    forall count: nat
      ensures Serve(requests + Constant(n, count), capacity, plugin).delivered
        == Serve(requests, capacity, plugin).delivered
    {
      RefusalIsForEver(requests, Constant(n, count), capacity, plugin, size);
    }
  }

  /** Requests of up to `n` bytes can bring the callbacks to a stall exactly when the ring
      cannot hold a block beside one byte less than a request. */
  lemma StallsExactly(n: nat, capacity: nat, plugin: nat -> seq<byte>, size: nat)
    requires n >= 1 && size >= 1 && Blocks(plugin, size)
    ensures !NeverStalls(n, capacity, plugin) <==> capacity < size + n - 1
  {
    if capacity >= size + n - 1 {
      forall requests: seq<nat>
        ensures !StallsAfter(requests, n, capacity, plugin)
      {
        forall count: nat
          ensures Serve(requests + Constant(n, count), capacity, plugin).refusals
            == Serve(requests, capacity, plugin).refusals
        {
          RoomFromHere(requests, n, count, capacity, plugin, size);
        }
        NoStallWithoutRefusal(requests, n, capacity, plugin, size);
      }
    } else {
      var requests := RefusalIsReachable(n, capacity, plugin, size);
      RefusalStalls(requests, n, capacity, plugin, size);
    }
  }

  /** For the ring `initialize` makes, of two blocks rounded up to a power of two: no run
      of requests of up to `n` bytes refuses a block, or comes to a stall, exactly when a
      request is at most what rounding leaves beside one block. */
  lemma InitializedRingFlowsExactly(n: nat, ringSize: nat, plugin: nat -> seq<byte>, size: nat)
    requires n >= 1 && size >= 1 && Blocks(plugin, size) && IsLeastPow2(ringSize, 2 * size)
    ensures NeverRefuses(n, ringSize - 1, plugin) <==> n <= ringSize - size
    ensures NeverStalls(n, ringSize - 1, plugin) <==> n <= ringSize - size
  {
    var capacity := ringSize - 1;
    assert capacity >= size + n - 1 <==> n <= ringSize - size;
    RefusalsExactly(n, capacity, plugin, size);
    StallsExactly(n, capacity, plugin, size);
  }

  // One request size from the start.

  lemma OneMore(a: nat, m: nat)
    ensures (a + 1) * m == a * m + m
  {
  }

  /** While nothing is refused, the blocks taken in are the requests met and the queue. */
  lemma {:induction false} Balance(n: nat, count: nat, capacity: nat, plugin: nat -> seq<byte>, size: nat)
    returns (met: nat)
    requires Blocks(plugin, size) && Serve(Constant(n, count), capacity, plugin).refusals == 0
    ensures var t := Serve(Constant(n, count), capacity, plugin);
      t.processCalls * size == met * n + |t.queue|
  {
    if count == 0 {
      met := 0;
    } else {
      ConstantNext(n, count - 1);
      ServeAppend(Constant(n, count - 1), n, capacity, plugin);
      var t := Serve(Constant(n, count - 1), capacity, plugin);
      var s := Callback(t.queue, capacity, n, plugin(t.processCalls));
      assert |plugin(t.processCalls)| == size;
      var before := Balance(n, count - 1, capacity, plugin, size);
      met := if s.short then before else before + 1;
      OneMore(t.processCalls, size);
      OneMore(before, n);
    }
  }

  /** When a callback runs the plugin, the queue is a remainder of the bytes taken in. */
  lemma QueueIsRemainder(n: nat, count: nat, capacity: nat, plugin: nat -> seq<byte>, size: nat)
    requires n >= 1 && Blocks(plugin, size)
    requires Serve(Constant(n, count), capacity, plugin).refusals == 0
    requires |Serve(Constant(n, count), capacity, plugin).queue| < n
    ensures var t := Serve(Constant(n, count), capacity, plugin);
      |t.queue| == (t.processCalls * size) % n
  {
    var met := Balance(n, count, capacity, plugin, size);
    ModOf(met, |Serve(Constant(n, count), capacity, plugin).queue|, n);
  }

  lemma {:induction false} ConstantRoom(n: nat, count: nat, capacity: nat, plugin: nat -> seq<byte>, size: nat)
    requires n >= 1 && Blocks(plugin, size) && capacity + Gcd(size, n) >= size + n
    ensures Serve(Constant(n, count), capacity, plugin).refusals == 0
  {
    if count > 0 {
      ConstantRoom(n, count - 1, capacity, plugin, size);
      ConstantNext(n, count - 1);
      ServeAppend(Constant(n, count - 1), n, capacity, plugin);
      var t := Serve(Constant(n, count - 1), capacity, plugin);
      assert |plugin(t.processCalls)| == size;
      if |t.queue| < n {
        QueueIsRemainder(n, count - 1, capacity, plugin, size);
        RemainderBound(size, n, t.processCalls);
      }
    }
  }

  /** Callbacks that need no block only empty the queue. */
  lemma {:induction false} DrainBelow(n: nat, count: nat, capacity: nat, plugin: nat -> seq<byte>)
    returns (later: nat)
    requires n >= 1
    ensures var t, u := Serve(Constant(n, count), capacity, plugin), Serve(Constant(n, later), capacity, plugin);
      u.processCalls == t.processCalls && |u.queue| < n
    decreases |Serve(Constant(n, count), capacity, plugin).queue|
  {
    later := count;
    if |Serve(Constant(n, count), capacity, plugin).queue| >= n {
      ConstantNext(n, count);
      ServeAppend(Constant(n, count), n, capacity, plugin);
      later := DrainBelow(n, count + 1, capacity, plugin);
    }
  }

  /** If nothing is ever refused, the plugin is run for the `k`th time, for every `k`. */
  lemma {:induction false} ReachCalls(n: nat, k: nat, capacity: nat, plugin: nat -> seq<byte>, size: nat)
    returns (count: nat)
    requires n >= 1 && Blocks(plugin, size)
    requires forall c: nat :: Serve(Constant(n, c), capacity, plugin).refusals == 0
    ensures var t := Serve(Constant(n, count), capacity, plugin);
      t.processCalls == k && |t.queue| < n
  {
    if k == 0 {
      count := 0;
    } else {
      var earlier := ReachCalls(n, k - 1, capacity, plugin, size);
      ConstantNext(n, earlier);
      ServeAppend(Constant(n, earlier), n, capacity, plugin);
      assert |plugin(k - 1)| == size;
      count := DrainBelow(n, earlier + 1, capacity, plugin);
    }
  }

  lemma ConstantRefusal(n: nat, capacity: nat, plugin: nat -> seq<byte>, size: nat) returns (count: nat)
    requires n >= 1 && size >= 1 && Blocks(plugin, size) && capacity + Gcd(size, n) < size + n
    ensures |Serve(Constant(n, count), capacity, plugin).queue| < n
    ensures |Serve(Constant(n, count), capacity, plugin).queue| + size > capacity
  {
    if forall c: nat :: Serve(Constant(n, c), capacity, plugin).refusals == 0 {
      var k := LargestRemainder(size, n);
      count := ReachCalls(n, k, capacity, plugin, size);
      QueueIsRemainder(n, count, capacity, plugin, size);
    } else {
      var c: nat :| Serve(Constant(n, c), capacity, plugin).refusals != 0;
      assert Constant(n, 0) == [];
      count := FirstRefusal(n, c, capacity, plugin, size);
    }
  }

  lemma {:induction false} FirstRefusal(n: nat, c: nat, capacity: nat, plugin: nat -> seq<byte>, size: nat)
    returns (count: nat)
    requires Blocks(plugin, size) && c >= 1 && Serve(Constant(n, c), capacity, plugin).refusals != 0
    ensures |Serve(Constant(n, count), capacity, plugin).queue| < n
    ensures |Serve(Constant(n, count), capacity, plugin).queue| + size > capacity
  {
    count := c - 1;
    ConstantNext(n, c - 1);
    ServeAppend(Constant(n, c - 1), n, capacity, plugin);
    var t := Serve(Constant(n, c - 1), capacity, plugin);
    assert |plugin(t.processCalls)| == size;
    if t.refusals != 0 {
      assert Constant(n, 0) == [];
      count := FirstRefusal(n, c - 1, capacity, plugin, size);
    }
  }

  /** Asking for `n` bytes from the start, and for nothing else, comes to a stall exactly
      when the ring cannot hold a block beside `n` less the greatest common divisor of the
      two: the longest queue that such requests ever leave short. */
  lemma ConstantRequestsStallExactly(n: nat, capacity: nat, plugin: nat -> seq<byte>, size: nat)
    requires n >= 1 && size >= 1 && Blocks(plugin, size)
    ensures (exists count: nat :: StallsAfter(Constant(n, count), n, capacity, plugin))
      <==> capacity < size + n - Gcd(size, n)
  {
    if capacity + Gcd(size, n) < size + n {
      var count := ConstantRefusal(n, capacity, plugin, size);
      RefusalStalls(Constant(n, count), n, capacity, plugin, size);
    } else {
      forall count: nat
        ensures !StallsAfter(Constant(n, count), n, capacity, plugin)
      {
        forall more: nat
          ensures Serve(Constant(n, count) + Constant(n, more), capacity, plugin).refusals
            == Serve(Constant(n, count), capacity, plugin).refusals
        {
          assert Constant(n, count) + Constant(n, more) == Constant(n, count + more);
          ConstantRoom(n, count, capacity, plugin, size);
          ConstantRoom(n, count + more, capacity, plugin, size);
        }
        NoStallWithoutRefusal(Constant(n, count), n, capacity, plugin, size);
      }
    }
  }

  /** Rounding up to a power of two does not always help: a block of 28 bytes gets a ring
      of 64, and requests of 40 bytes stall in it, after some have been met. */
  lemma RoundedRingStallsToo(plugin: nat -> seq<byte>)
    requires Blocks(plugin, 28)
    ensures IsLeastPow2(64, 56) && !IsPow2(56)
    ensures exists count: nat :: StallsAfter(Constant(40, count), 40, 63, plugin)
  {
    assert Pow2(5) == 32;
    assert Pow2(6) == 64;
    forall k: nat
      ensures (56 <= Pow2(k) ==> 64 <= Pow2(k)) && Pow2(k) != 56
    {
      if k <= 5 {
        Pow2Monotone(k, 5);
      } else {
        Pow2Monotone(6, k);
      }
    }
    assert Gcd(28, 40) == Gcd(40, 28) == Gcd(28, 12) == Gcd(12, 4) == Gcd(4, 0) == 4;
    ConstantRequestsStallExactly(40, 63, plugin, 28);
  }
}
