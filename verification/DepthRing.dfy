/** Every thread counts: with one level fewer than there are threads the limited
    recursion can miss a loss (src/cascade/engine.rs). */
module DepthRing {
  import opened Collections
  import opened GraphTypes
  import opened CascadeSpec
  import opened Attribution
  import opened DepthLimit
  import opened DepthLag

  /** Threads 0 to n: each waits for the next one, the last for thread 1. */
  function Ring(n: nat): seq<Edge> {
    seq(n + 1, k requires 0 <= k < n + 1 => RingEdge(n, k))
  }

  function RingEdge(n: nat, k: nat): Edge {
    Over(k, if k < n then k + 1 else 1, LONG)
  }

  ghost predicate IsRing(waits: set<Wait>, n: nat) {
    && (forall x | x in waits :: 0 <= x.src.id <= n && x == WaitOf(RingEdge(n, x.src.id)))
    && (forall k: nat | k <= n :: WaitOf(RingEdge(n, k)) in waits)
  }

  lemma RingWaits(n: nat)
    ensures IsRing(NormalWaits(Ring(n)), n)
  {
    var es, waits := Ring(n), NormalWaits(Ring(n));
    forall k: nat | k <= n ensures WaitOf(RingEdge(n, k)) in waits {
      assert es[k] in es && es[k] == RingEdge(n, k);
    }
    forall x | x in waits ensures 0 <= x.src.id <= n && x == WaitOf(RingEdge(n, x.src.id)) {
      var e :| e in es && e.weight.kind == Normal && WaitOf(e) == x;
      var k :| 0 <= k < |es| && es[k] == e;
    }
  }

  ghost predicate Below(path: set<ThreadId>, k: nat) {
    forall t :: t in path <==> 0 <= t.id < k
  }

  lemma RingSteady(waits: set<Wait>, n: nat, k: nat, next: nat)
    requires IsRing(waits, n) && k <= n && next == if k < n then k + 1 else 1
    ensures Steady(waits, ThreadId(k), {ThreadId(next)}, LONG)
  {
    OverlapOf(LONG);
    assert WaitOf(RingEdge(n, k)) == Wait(ThreadId(k), ThreadId(next), LONG);
    assert WaitOf(RingEdge(n, k)) in waits;
  }

  lemma RingWaiters(waits: set<Wait>, n: nat, k: nat)
    requires IsRing(waits, n) && 2 <= k <= n
    ensures ConcurrentWaiters(waits, ThreadId(k), LONG) == 1
  {
    OverlapOf(LONG);
    var e := WaitOf(RingEdge(n, k - 1));
    assert e == Wait(ThreadId(k - 1), ThreadId(k), LONG);
    assert e in waits && e.src in Waiters(waits, ThreadId(k), LONG);
    assert Waiters(waits, ThreadId(k), LONG) == {ThreadId(k - 1)};
  }

  lemma ClosingWaiters(waits: set<Wait>, n: nat)
    requires IsRing(waits, n) && n >= 2
    ensures ConcurrentWaiters(waits, ThreadId(1), LONG) == 2
  {
    OverlapOf(LONG);
    var e, f := WaitOf(RingEdge(n, 0)), WaitOf(RingEdge(n, n));
    assert e == Wait(ThreadId(0), ThreadId(1), LONG) && f == Wait(ThreadId(n), ThreadId(1), LONG);
    assert e in waits && f in waits;
    assert e.src in Waiters(waits, ThreadId(1), LONG) && f.src in Waiters(waits, ThreadId(1), LONG);
    assert Waiters(waits, ThreadId(1), LONG) == {ThreadId(0), ThreadId(n)};
  }

  /** Half is lost at the last thread, if the recursion gets that far. */
  ghost function RingTakes(n: nat, k: nat, left: nat): nat {
    if left > n - k then 1 else 2
  }

  lemma RingEnd(waits: set<Wait>, n: nat, left: nat, path: set<ThreadId>)
    requires IsRing(waits, n) && n >= 2 && left > 0 && Below(path, n)
    ensures Cascade(waits, ThreadId(n), LONG, Some(left), path) == Outcome(1, 0)
  {
    RingSteady(waits, n, n, 1);
    ClosingWaiters(waits, n);
    CascadeUnfolds(waits, ThreadId(1), LONG, Spend(Some(left)), path + {ThreadId(n)});
    LoneTransfer(waits, ThreadId(n), ThreadId(1), LONG, Some(left), path, Outcome(0, 2), 2);
    assert Quotient(2, 2) == 1;
  }

  lemma RingStep(waits: set<Wait>, n: nat, k: nat, left: nat, below: nat, path: set<ThreadId>,
                 child: Outcome, taken: nat)
    requires IsRing(waits, n) && 1 <= k < n && left == below + 1 && Below(path, k)
    requires child == Cascade(waits, ThreadId(k + 1), LONG, Some(below), path + {ThreadId(k)})
    requires taken == child.propagated + child.selfBlame
    ensures Cascade(waits, ThreadId(k), LONG, Some(left), path) == Outcome(taken, 0)
  {
    RingSteady(waits, n, k, k + 1);
    RingWaiters(waits, n, k + 1);
    LoneTransfer(waits, ThreadId(k), ThreadId(k + 1), LONG, Some(left), path, child, taken);
    DivideByOne(taken);
  }

  lemma {:induction false} RingAt(waits: set<Wait>, n: nat, k: nat, left: nat, path: set<ThreadId>)
    requires IsRing(waits, n) && n >= 2 && 1 <= k <= n && Below(path, k)
    ensures Cascade(waits, ThreadId(k), LONG, Some(left), path)
         == if left == 0 then Outcome(0, 2) else Outcome(RingTakes(n, k, left), 0)
    decreases n - k
  {
    if left == 0 {
      CascadeUnfolds(waits, ThreadId(k), LONG, Some(left), path);
    } else if k == n {
      RingEnd(waits, n, left, path);
    } else {
      var below: nat, longer := left - 1, path + {ThreadId(k)};
      RingAt(waits, n, k + 1, below, longer);
      RingStep(waits, n, k, left, below, path, Cascade(waits, ThreadId(k + 1), LONG, Some(below), longer),
               RingTakes(n, k, left));
    }
  }

  /** `es` is such a ring: what the laws below use of it. */
  ghost predicate RingGraph(es: seq<Edge>, n: nat, threads: set<ThreadId>) {
    && n >= 2 && |es| == n + 1 && es[0] == Over(0, 1, LONG) && IsRing(NormalWaits(es), n)
    && |threads| == n + 1 && EndpointsIn(es, threads)
  }

  /** There is one for every number of threads from 3 on. */
  lemma RingIsRing(n: nat) returns (threads: set<ThreadId>)
    requires n >= 2
    ensures RingGraph(Ring(n), n, threads)
  {
    threads := RingThreads(n);
    RingWaits(n);
    assert Ring(n)[0] == RingEdge(n, 0);
    RingEnds(n, threads);
  }

  lemma RingEnds(n: nat, threads: set<ThreadId>)
    requires n >= 2 && forall t :: t in threads <==> 0 <= t.id <= n
    ensures EndpointsIn(Ring(n), threads)
  {
    forall e | e in Ring(n) ensures e.src in threads && e.dst in threads {
      var k :| 0 <= k < n + 1 && Ring(n)[k] == e;
      assert e == RingEdge(n, k);
    }
  }

  lemma {:induction false} RingThreads(n: nat) returns (threads: set<ThreadId>)
    ensures |threads| == n + 1 && forall t :: t in threads <==> 0 <= t.id <= n
  {
    if n == 0 {
      threads := {ThreadId(0)};
    } else {
      var rest := RingThreads(n - 1);
      threads := rest + {ThreadId(n)};
    }
  }

  /** The first wait of a ring of n + 1 threads keeps 1 ms exactly when the limit
      is at least that number of threads; below, all of it is passed on. */
  lemma DepthBoundIsTight(es: seq<Edge>, n: nat, threads: set<ThreadId>, maxDepth: nat)
    requires RingGraph(es, n, threads) && maxDepth >= 2
    ensures Redistribute(es, LevelsBelowEntry(maxDepth))[0].weight.attributedDelayMs
         == if maxDepth >= n + 1 then 1 else 0
  {
    var left: nat := maxDepth - 1;
    RingAt(NormalWaits(es), n, 1, left, {ThreadId(0)});
    DelayAt(es, LevelsBelowEntry(maxDepth), 0, Over(0, 1, LONG), 2, RingTakes(n, 1, left));
  }

  /** Without a limit it keeps 1 ms, so every limit of 2 or more below the number
      of threads gives another result on some graph of that many threads. */
  lemma UnlimitedRing(es: seq<Edge>, n: nat, threads: set<ThreadId>)
    requires RingGraph(es, n, threads)
    ensures Redistribute(es, None)[0].weight.attributedDelayMs == 1
  {
    DeepEnoughIsUnlimited(es, threads, n + 1);
    DepthBoundIsTight(es, n, threads, n + 1);
  }

  /** Eleven threads are one too many for a depth of 10. */
  lemma ElevenThreads() returns (es: seq<Edge>, threads: set<ThreadId>)
    ensures |threads| == 11 && EndpointsIn(es, threads) && |es| == 11
    ensures Redistribute(es, LevelsBelowEntry(10))[0].weight.attributedDelayMs == 0
    ensures Redistribute(es, None)[0].weight.attributedDelayMs == 1
  {
    es := Ring(10);
    threads := RingIsRing(10);
    DepthBoundIsTight(es, 10, threads, 10);
    UnlimitedRing(es, 10, threads);
  }
}
