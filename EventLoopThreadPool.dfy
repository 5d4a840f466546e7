/** The pool of I/O loops a server hands connections to: a base loop plus
    one loop per worker thread, chosen round robin or by hash. Starting a
    worker thread and the loop it runs are outside the model; `Start` is
    given the loops the started threads report back. */
module LoopPool {
  import opened Reactor
  import opened Decimal

  /** The name of the i-th worker thread, `"%s-%d"`. */
  function ThreadName(pool: string, i: nat): (r: string)
    ensures r == pool + "-" + Digits(i)
  {
    pool + "-" + IntToString(i)
  }

  /** Different workers of one pool get different names. */
  lemma ThreadNamesDistinct(pool: string, i: nat, j: nat)
    requires i != j
    ensures ThreadName(pool, i) != ThreadName(pool, j)
  {
    var prefix := pool + "-";
    if ThreadName(pool, i) == ThreadName(pool, j) {
      assert Digits(i) == ThreadName(pool, i)[|prefix|..];
      assert Digits(j) == ThreadName(pool, j)[|prefix|..];
      DigitsInjective(i, j);
    }
  }

  /** The cursor after one round-robin pick among n loops. */
  function Advance(next: nat, n: nat): (r: nat)
    requires next < n
    ensures r < n
    ensures r == (next + 1) % n
  {
    if next + 1 >= n then 0 else next + 1
  }

  /** The loops k round-robin picks return, starting at cursor `next`, and
      the cursor they leave. */
  function Picks(loops: seq<EventLoop>, next: nat, k: nat): (seq<EventLoop>, nat)
    requires next < |loops|
    decreases k
  {
    if k == 0 then ([], next)
    else
      var (rest, cursor) := Picks(loops, Advance(next, |loops|), k - 1);
      ([loops[next]] + rest, cursor)
  }

  /** Picking a+b times is picking a times, then b times from where the
      first a left the cursor. */
  lemma {:induction false} PicksSplit(loops: seq<EventLoop>, next: nat, a: nat, b: nat)
    requires next < |loops|
    ensures Picks(loops, next, a).1 < |loops|
    ensures Picks(loops, next, a + b).0 == Picks(loops, next, a).0 + Picks(loops, Picks(loops, next, a).1, b).0
    ensures Picks(loops, next, a + b).1 == Picks(loops, Picks(loops, next, a).1, b).1
    decreases a
  {
    if a > 0 {
      PicksSplit(loops, Advance(next, |loops|), a - 1, b);
    }
  }

  /** From cursor `next`, the picks up to the end of the list are the
      loops in order, and the cursor wraps to 0 exactly at the end. */
  lemma {:induction false} PicksRun(loops: seq<EventLoop>, next: nat, k: nat)
    requires next < |loops| && next + k <= |loops|
    ensures Picks(loops, next, k).0 == loops[next..next + k]
    ensures Picks(loops, next, k).1 == if next + k == |loops| then 0 else next + k
    decreases k
  {
    if k > 0 {
      var after := Advance(next, |loops|);
      if k > 1 {
        PicksRun(loops, after, k - 1);
      }
    }
  }

  /** Any n consecutive picks among n workers visit every worker once, in
      list order starting at the cursor, and bring the cursor back. */
  lemma PicksCycle(loops: seq<EventLoop>, next: nat)
    requires next < |loops|
    ensures Picks(loops, next, |loops|).0 == loops[next..] + loops[..next]
    ensures Picks(loops, next, |loops|).1 == next
  {
    var n := |loops|;
    PicksSplit(loops, next, n - next, next);
    PicksRun(loops, next, n - next);
    if next > 0 {
      PicksRun(loops, 0, next);
    }
  }

  class EventLoopThreadPool {
    const baseLoop: EventLoop
    const name: string
    var started: bool
    var numThreads: int
    /** The round-robin cursor into `loops`. */
    var next: int
    /** The names of the started worker threads, in start order. */
    var threads: seq<string>
    /** The loops those threads run, in the same order. */
    var loops: seq<EventLoop>

    /** The cursor stays in range, and a started pool has one loop per
        worker thread, none of them the base loop and no two the same. */
    ghost predicate Valid()
      reads this
    {
      && (if loops == [] then next == 0 else 0 <= next < |loops|)
      && |threads| == |loops|
      && baseLoop !in loops
      && (forall i, j | 0 <= i < j < |loops| :: loops[i] != loops[j])
    }

    constructor(baseLoop: EventLoop, name: string)
      ensures this.baseLoop == baseLoop && this.name == name
      ensures !started && numThreads == 0 && next == 0 && threads == [] && loops == []
      ensures Valid()
    {
      this.baseLoop := baseLoop;
      this.name := name;
      started := false;
      numThreads := 0;
      next := 0;
      threads := [];
      loops := [];
    }

    method SetThreadNum(numThreads: int)
      modifies this`numThreads
      ensures this.numThreads == numThreads
    {
      this.numThreads := numThreads;
    }

    /** `start`: requires a pool not yet started with a non-negative thread
        count; starts that many named workers and records their loops. With
        no workers the init callback, when set, runs on the base loop, which
        `initialisedBase` reports. `spawned` are the loops the workers
        report back, each new and distinct. */
    method Start(spawned: seq<EventLoop>, hasCallback: bool) returns (initialisedBase: bool)
      requires !started && numThreads >= 0 && Valid() && loops == [] && threads == []
      requires |spawned| == numThreads && baseLoop !in spawned
      requires forall i, j | 0 <= i < j < |spawned| :: spawned[i] != spawned[j]
      modifies this`started, this`threads, this`loops
      ensures started && Valid() && next == 0
      ensures loops == spawned && |loops| == numThreads
      ensures |threads| == numThreads && forall i | 0 <= i < numThreads :: threads[i] == ThreadName(name, i)
      ensures initialisedBase <==> numThreads == 0 && hasCallback
    {
      started := true;
      var i := 0;
      while i < numThreads
        invariant 0 <= i <= numThreads
        invariant started && loops == spawned[..i] && |threads| == i
        invariant forall k | 0 <= k < i :: threads[k] == ThreadName(name, k)
      {
        threads := threads + [ThreadName(name, i)];
        loops := loops + [spawned[i]];
        i := i + 1;
      }
      assert spawned[..i] == spawned;
      initialisedBase := numThreads == 0 && hasCallback;
    }

    /** `getAllLoops`: the workers' loops, or just the base loop when there
        are none. */
    function GetAllLoops(): (r: seq<EventLoop>)
      reads this
      requires started
      ensures |r| >= 1
      ensures loops == [] ==> r == [baseLoop]
      ensures loops != [] ==> r == loops
    {
      if loops == [] then [baseLoop] else loops
    }

    /** `getNextLoop`: the base loop while there are no workers; otherwise
        the worker under the cursor, which then moves on and wraps. */
    method GetNextLoop() returns (loop: EventLoop)
      requires started && Valid()
      modifies this`next
      ensures Valid() && loop in GetAllLoops()
      ensures loops == [] ==> loop == baseLoop && next == old(next)
      ensures loops != [] ==> loop == loops[old(next)] && next == Advance(old(next), |loops|)
      ensures loops != [] ==> (loop, next) == (Picks(loops, old(next), 1).0[0], Picks(loops, old(next), 1).1)
    {
      loop := baseLoop;
      if loops != [] {
        loop := loops[next];
        next := next + 1;
        if next >= |loops| {
          next := 0;
        }
      }
    }

    /** `getLoopForHash`: the worker at hash mod n, or the base loop. Unlike
        `getNextLoop` it asserts nothing about `started`, so an unstarted
        pool hands out its base loop. */
    method GetLoopForHash(hash: nat) returns (loop: EventLoop)
      ensures started ==> loop in GetAllLoops()
      ensures loops == [] ==> loop == baseLoop
      ensures loops != [] ==> loop == loops[hash % |loops|]
    {
      loop := baseLoop;
      if loops != [] {
        loop := loops[hash % |loops|];
      }
    }
  }

  /** Three workers picked four times from a fresh cursor: the first pick
      differs from the next two and comes round again on the fourth. */
  lemma ThreeWorkersCycle(pool: EventLoopThreadPool)
    requires pool.Valid() && |pool.loops| == 3 && pool.next == 0
    ensures |Picks(pool.loops, 0, 4).0| == 4
    ensures var p := Picks(pool.loops, 0, 4).0;
            p[0] != pool.baseLoop && p[0] != p[1] && p[0] != p[2] && p[0] == p[3]
  {
    PicksSplit(pool.loops, 0, 3, 1);
    PicksCycle(pool.loops, 0);
    assert Picks(pool.loops, 0, 4).0 == pool.loops + [pool.loops[0]];
  }
}
