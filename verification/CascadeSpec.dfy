/** Cascade redistribution as a function of the set of normal waits
    (src/cascade/engine.rs), with the laws it keeps on every graph. */
module CascadeSpec {
  import opened Collections
  import opened GraphTypes
  import opened Sweep

  datatype Outcome = Outcome(propagated: nat, selfBlame: nat)

  /** Distinct threads with a normal wait on `target` overlapping `w`. */
  ghost function Waiters(waits: set<Wait>, target: ThreadId, w: TimeWindow): set<ThreadId> {
    set e | e in waits && e.dst == target && Overlap(e.window, w).Some? :: e.src
  }

  ghost function ConcurrentWaiters(waits: set<Wait>, target: ThreadId, w: TimeWindow): nat {
    if |Waiters(waits, target, w)| == 0 then 1 else |Waiters(waits, target, w)|
  }

  ghost function Sources(waits: set<Wait>): set<ThreadId> {
    set e | e in waits :: e.src
  }

  lemma PartitionNeedsSource(waits: set<Wait>, node: ThreadId, w: TimeWindow)
    requires Partition(waits, node, w) != []
    ensures node in Sources(waits)
  {
    var clips := Clips(waits, node, w);
    assert clips == {} ==> Boundaries(clips) == {};
    var c := Pick(clips);
  }

  function Spend(left: Option<nat>): Option<nat>
    requires left != Some(0)
  {
    if left.Some? then Some(left.value - 1) else None
  }

  /** A child's whole result, divided by the number of parallel targets and
      then by the number of threads waiting on the child. */
  ghost function Transfer(child: Outcome, share: nat, external: nat): nat {
    Quotient(Quotient(child.propagated + child.selfBlame, AtLeastOne(share)), AtLeastOne(external))
  }

  function AtLeastOne(n: nat): nat {
    if n == 0 then 1 else n
  }

  /** Redistribution from `current` over `w`, with `left` levels of recursion
      remaining (`None`: no depth limit) and the threads of `path` closed to
      re-entry. The unlimited form terminates on cyclic graphs too, because a
      recursing thread has an outgoing wait and joins the path. */
  ghost function Cascade(waits: set<Wait>, current: ThreadId, w: TimeWindow,
                         left: Option<nat>, path: set<ThreadId>): Outcome
    decreases Sources(waits) - path, 0, 0
  {
    var intervals := Partition(waits, current, w);
    if left == Some(0) || current in path || intervals == [] then
      Outcome(0, Duration(w))
    else
      PartitionNeedsSource(waits, current, w);
      OneFewerOpen(waits, path, current);
      Outcome(
        SumIntervals(waits, intervals, Spend(left), path + {current}),
        SatSub(Duration(w), Coverage(intervals)))
  }

  ghost function SumIntervals(waits: set<Wait>, intervals: seq<ElementaryInterval>,
                              left: Option<nat>, path: set<ThreadId>): nat
    decreases Sources(waits) - path, 2, |intervals|
  {
    if intervals == [] then 0
    else
      SumTargets(waits, intervals[0].window, intervals[0].targets, |intervals[0].targets|, left, path)
      + SumIntervals(waits, intervals[1..], left, path)
  }

  /** What the threads of `targets` take over of `w`. */
  ghost function SumTargets(waits: set<Wait>, w: TimeWindow, targets: seq<ThreadId>, share: nat,
                            left: Option<nat>, path: set<ThreadId>): nat
    decreases Sources(waits) - path, 1, |targets|
  {
    if targets == [] then 0
    else
      var child := Cascade(waits, targets[0], w, left, path);
      Transfer(child, share, ConcurrentWaiters(waits, targets[0], w))
      + SumTargets(waits, w, targets[1..], share, left, path)
  }

  lemma CascadeUnfolds(waits: set<Wait>, current: ThreadId, w: TimeWindow, left: Option<nat>, path: set<ThreadId>)
    ensures var intervals := Partition(waits, current, w);
            Cascade(waits, current, w, left, path) ==
            if left == Some(0) || current in path || intervals == [] then Outcome(0, Duration(w))
            else Outcome(SumIntervals(waits, intervals, Spend(left), path + {current}),
                         SatSub(Duration(w), Coverage(intervals)))
  {}

  // ---------- ledger bound ----------

  lemma TransferBound(child: Outcome, total: nat, share: nat, external: nat)
    requires child.propagated + child.selfBlame <= total
    ensures Transfer(child, share, external) <= Quotient(total, AtLeastOne(share))
  {
    QuotientMonotone(child.propagated + child.selfBlame, total, AtLeastOne(share));
    var q := Quotient(child.propagated + child.selfBlame, AtLeastOne(share));
    QuotientMonotone(q, q, AtLeastOne(external));
  }

  /** No call hands on more than the time its thread is itself waiting, and what
      it hands on plus what it keeps never exceeds the window. */
  lemma {:induction false} LedgerBound(waits: set<Wait>, current: ThreadId, w: TimeWindow,
                                       left: Option<nat>, path: set<ThreadId>)
    ensures var o := Cascade(waits, current, w, left, path);
            && o.propagated <= |BusyMs(waits, current, w)| <= Duration(w)
            && o.propagated + o.selfBlame <= Duration(w)
    decreases Sources(waits) - path, 0, 0
  {
    CoverageIsBusyTime(waits, current, w);
    CascadeUnfolds(waits, current, w, left, path);
    var intervals := Partition(waits, current, w);
    if left != Some(0) && current !in path && intervals != [] {
      PartitionNeedsSource(waits, current, w);
      OneFewerOpen(waits, path, current);
      SumIntervalsBound(waits, intervals, Spend(left), path + {current});
    }
  }

  lemma {:induction false} SumIntervalsBound(waits: set<Wait>, intervals: seq<ElementaryInterval>,
                                             left: Option<nat>, path: set<ThreadId>)
    ensures SumIntervals(waits, intervals, left, path) <= Coverage(intervals)
    decreases Sources(waits) - path, 2, |intervals|
  {
    if intervals != [] {
      var first := intervals[0];
      var n := |first.targets|;
      SumTargetsBound(waits, first.window, first.targets, n, left, path);
      if n > 0 {
        SharesFit(n, Duration(first.window));
      }
      SumIntervalsBound(waits, intervals[1..], left, path);
    }
  }

  lemma {:induction false} SumTargetsBound(waits: set<Wait>, w: TimeWindow, targets: seq<ThreadId>, share: nat,
                                           left: Option<nat>, path: set<ThreadId>)
    ensures SumTargets(waits, w, targets, share, left, path)
         <= Times(|targets|, Quotient(Duration(w), AtLeastOne(share)))
    decreases Sources(waits) - path, 1, |targets|
  {
    if targets != [] {
      LedgerBound(waits, targets[0], w, left, path);
      var child := Cascade(waits, targets[0], w, left, path);
      TransferBound(child, Duration(w), share, ConcurrentWaiters(waits, targets[0], w));
      SumTargetsBound(waits, w, targets[1..], share, left, path);
    }
  }

  // ---------- the depth limit ----------

  ghost predicate Ample(left: Option<nat>, waits: set<Wait>, path: set<ThreadId>) {
    left.None? || left.value >= |Sources(waits) - path|
  }

  lemma OneFewerOpen(waits: set<Wait>, path: set<ThreadId>, current: ThreadId)
    requires current in Sources(waits) && current !in path
    ensures |Sources(waits) - (path + {current})| == |Sources(waits) - path| - 1
    ensures Sources(waits) - (path + {current}) < Sources(waits) - path
  {
    var open := Sources(waits) - path;
    assert Sources(waits) - (path + {current}) == open - {current};
  }

  /** A depth limit of at least the number of still-open waiting threads is no
      limit at all. */
  lemma {:induction false} DepthLimitIrrelevant(waits: set<Wait>, current: ThreadId, w: TimeWindow,
                                                left: Option<nat>, path: set<ThreadId>)
    requires Ample(left, waits, path)
    ensures Cascade(waits, current, w, left, path) == Cascade(waits, current, w, None, path)
    decreases Sources(waits) - path, 0, 0
  {
    var intervals := Partition(waits, current, w);
    if current !in path && intervals != [] {
      PartitionNeedsSource(waits, current, w);
      OneFewerOpen(waits, path, current);
      IntervalsDepth(waits, intervals, Spend(left), path + {current});
    }
  }

  lemma {:induction false} IntervalsDepth(waits: set<Wait>, intervals: seq<ElementaryInterval>,
                                          left: Option<nat>, path: set<ThreadId>)
    requires Ample(left, waits, path)
    ensures SumIntervals(waits, intervals, left, path) == SumIntervals(waits, intervals, None, path)
    decreases Sources(waits) - path, 2, |intervals|
  {
    if intervals != [] {
      TargetsDepth(waits, intervals[0].window, intervals[0].targets, |intervals[0].targets|, left, path);
      IntervalsDepth(waits, intervals[1..], left, path);
    }
  }

  lemma {:induction false} TargetsDepth(waits: set<Wait>, w: TimeWindow, targets: seq<ThreadId>, share: nat,
                                        left: Option<nat>, path: set<ThreadId>)
    requires Ample(left, waits, path)
    ensures SumTargets(waits, w, targets, share, left, path) == SumTargets(waits, w, targets, share, None, path)
    decreases Sources(waits) - path, 1, |targets|
  {
    if targets != [] {
      DepthLimitIrrelevant(waits, targets[0], w, left, path);
      TargetsDepth(waits, w, targets[1..], share, left, path);
    }
  }

  // ---------- chains ----------

  /** Whenever `node` waits, it waits for one thread, and alone. */
  ghost predicate Unshared(waits: set<Wait>, node: ThreadId) {
    forall e, f | e in waits && f in waits && e.src == node && Overlap(e.window, f.window).Some? ::
      f.src == node <==> f.dst == e.dst
  }

  /** No thread waits for two different threads, and none is waited for by two. */
  ghost predicate Chain(waits: set<Wait>) {
    forall e, f | e in waits && f in waits :: e.src == f.src <==> e.dst == f.dst
  }

  /** On a chain a call hands on exactly the time its thread is waiting, whatever
      the depth limit, and keeps exactly the rest. */
  lemma {:induction false} ChainClosedForm(waits: set<Wait>, current: ThreadId, w: TimeWindow,
                                           left: Option<nat>, path: set<ThreadId>)
    requires Chain(waits)
    ensures var o := Cascade(waits, current, w, left, path);
            && o.propagated + o.selfBlame == Duration(w)
            && (left != Some(0) && current !in path ==> o.propagated == |BusyMs(waits, current, w)|)
    decreases Sources(waits) - path, 0, 0
  {
    CoverageIsBusyTime(waits, current, w);
    CascadeUnfolds(waits, current, w, left, path);
    var intervals := Partition(waits, current, w);
    if left != Some(0) && current !in path && intervals != [] {
      PartitionNeedsSource(waits, current, w);
      OneFewerOpen(waits, path, current);
      forall i | 0 <= i < |intervals| ensures OneTarget(waits, intervals[i]) {
        assert Unshared(waits, current);
        UnsharedInterval(waits, current, w, i);
      }
      ChainIntervals(waits, intervals, Spend(left), path + {current});
    }
  }

  /** One target, waited for by one thread: nothing is divided. */
  ghost predicate OneTarget(waits: set<Wait>, interval: ElementaryInterval) {
    |interval.targets| == 1 && ConcurrentWaiters(waits, interval.targets[0], interval.window) == 1
  }

  lemma UnsharedInterval(waits: set<Wait>, node: ThreadId, w: TimeWindow, i: nat)
    requires Unshared(waits, node) && i < |Partition(waits, node, w)|
    ensures OneTarget(waits, Partition(waits, node, w)[i])
  {
    PartitionExact(waits, node, w);
    var interval := Partition(waits, node, w)[i];
    forall m | Contains(interval.window, m) ensures interval.targets == SortedThreads(WaitedFor(waits, node, m)) {
      assert Contains(w, m);
      assert ExactAt(Partition(waits, node, w), m, WaitedFor(waits, node, m));
    }
    OnlyTarget(waits, node, interval);
  }

  lemma OnlyTarget(waits: set<Wait>, node: ThreadId, interval: ElementaryInterval)
    requires Unshared(waits, node) && interval.targets != [] && Duration(interval.window) > 0
    requires forall m | Contains(interval.window, m) :: interval.targets == SortedThreads(WaitedFor(waits, node, m))
    ensures OneTarget(waits, interval)
  {
    var t, m := interval.targets[0], interval.window.startMs;
    SortedThreadsLists(WaitedFor(waits, node, m));
    assert t in interval.targets;
    var e := WaitAt(waits, node, t, m);
    forall x | x in WaitedFor(waits, node, m) ensures x == t {
      var f := WaitAt(waits, node, x, m);
      assert Contains(e.window, m) && Contains(f.window, m);
    }
    assert WaitedFor(waits, node, m) == {t};
    assert Overlap(e.window, interval.window).Some? by {
      assert Contains(e.window, m) && Contains(interval.window, m);
    }
    SoleWaiter(waits, node, t, interval.window, interval.targets);
    assert node in Waiters(waits, t, interval.window);
    assert Waiters(waits, t, interval.window) == {node};
  }

  lemma WaitAt(waits: set<Wait>, node: ThreadId, t: ThreadId, m: int) returns (e: Wait)
    requires t in WaitedFor(waits, node, m)
    ensures e in waits && e.src == node && e.dst == t && Contains(e.window, m)
  {
    e :| e in waits && e.src == node && Contains(e.window, m) && e.dst == t;
  }

  lemma SoleWaiter(waits: set<Wait>, node: ThreadId, t: ThreadId, w: TimeWindow, targets: seq<ThreadId>)
    requires Unshared(waits, node) && t in targets
    requires forall m | Contains(w, m) :: targets == SortedThreads(WaitedFor(waits, node, m))
    ensures forall x | x in Waiters(waits, t, w) :: x == node
  {
    forall f | f in waits && f.dst == t && Overlap(f.window, w).Some? ensures f.src == node {
      var m :| Contains(f.window, m) && Contains(w, m);
      SortedThreadsLists(WaitedFor(waits, node, m));
      var e := WaitAt(waits, node, t, m);
      assert Contains(e.window, m);
    }
  }

  lemma {:induction false} DivideByOne(n: nat)
    ensures Quotient(n, 1) == n
  {
    if n > 0 {
      DivideByOne(n - 1);
    }
  }

  lemma NoDivision(child: Outcome)
    ensures Transfer(child, 1, 1) == child.propagated + child.selfBlame
  {
    DivideByOne(child.propagated + child.selfBlame);
  }

  lemma {:induction false} ChainIntervals(waits: set<Wait>, intervals: seq<ElementaryInterval>,
                                          left: Option<nat>, path: set<ThreadId>)
    requires Chain(waits)
    requires forall i | 0 <= i < |intervals| :: OneTarget(waits, intervals[i])
    ensures SumIntervals(waits, intervals, left, path) == Coverage(intervals)
    decreases Sources(waits) - path, 2, |intervals|
  {
    if intervals != [] {
      var first := intervals[0];
      assert OneTarget(waits, first);
      ChainClosedForm(waits, first.targets[0], first.window, left, path);
      var child := Cascade(waits, first.targets[0], first.window, left, path);
      NoDivision(child);
      assert first.targets[1..] == [];
      assert SumTargets(waits, first.window, first.targets[1..], 1, left, path) == 0;
      assert SumTargets(waits, first.window, first.targets, 1, left, path) == Duration(first.window);
      ChainIntervals(waits, intervals[1..], left, path);
    }
  }
}
