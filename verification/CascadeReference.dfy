/** The cascade once more, as plain arithmetic on the edges of a graph: who waits
    is told by window bounds, shares by integer division (src/cascade/engine.rs). */
module CascadeReference {
  import opened Collections
  import opened GraphTypes
  import opened Sweep
  import opened CascadeSpec
  import opened Attribution

  // ---------- who waits for a thread ----------

  /** Two half-open windows have a millisecond in common. */
  predicate Meet(a: TimeWindow, b: TimeWindow) {
    && a.startMs < a.endMs && b.startMs < b.endMs
    && a.startMs < b.endMs && b.startMs < a.endMs
  }

  /** Threads with a normal edge to `target` during some part of `w`. */
  ghost function WaitingThreads(es: seq<Edge>, target: ThreadId, w: TimeWindow): set<ThreadId> {
    set e | e in es && e.weight.kind == Normal && e.dst == target && Meet(e.weight.window, w) :: e.src
  }

  lemma MeetIsOverlap(a: TimeWindow, b: TimeWindow)
    ensures Meet(a, b) <==> Overlap(a, b).Some?
  {
    if Meet(a, b) {
      var m := Max(a.startMs, b.startMs);
      assert Contains(a, m) && Contains(b, m);
    }
  }

  lemma WaitingThreadsAreWaiters(es: seq<Edge>, target: ThreadId, w: TimeWindow)
    ensures WaitingThreads(es, target, w) == Waiters(NormalWaits(es), target, w)
  {
    var waits := NormalWaits(es);
    forall e | e in es ensures Meet(e.weight.window, w) <==> Overlap(e.weight.window, w).Some? {
      MeetIsOverlap(e.weight.window, w);
    }
    forall t ensures t in WaitingThreads(es, target, w) <==> t in Waiters(waits, target, w) {
      if t in WaitingThreads(es, target, w) {
        var e :| e in es && e.weight.kind == Normal && e.dst == target && Meet(e.weight.window, w) && e.src == t;
        assert WaitOf(e) in waits;
      }
      if t in Waiters(waits, target, w) {
        var x :| x in waits && x.dst == target && Overlap(x.window, w).Some? && x.src == t;
        var e :| e in es && e.weight.kind == Normal && WaitOf(e) == x;
        assert Meet(e.weight.window, w);
      }
    }
  }

  /** Their number, and at least 1. */
  ghost function Divisor(es: seq<Edge>, target: ThreadId, w: TimeWindow): (n: nat)
    ensures n > 0
  {
    if WaitingThreads(es, target, w) == {} then 1 else |WaitingThreads(es, target, w)|
  }

  /** That is the number the engine divides by. */
  lemma WaitersAreCounted(es: seq<Edge>, target: ThreadId, w: TimeWindow)
    ensures ConcurrentWaiters(NormalWaits(es), target, w) == Divisor(es, target, w)
  {
    WaitingThreadsAreWaiters(es, target, w);
  }

  // ---------- when a thread waits itself ----------

  ghost predicate WaitsAt(es: seq<Edge>, t: ThreadId, m: int) {
    exists e :: e in es && e.weight.kind == Normal && e.src == t
                && e.weight.window.startMs <= m < e.weight.window.endMs
  }

  /** The milliseconds of `w` in which `t` waits for somebody. */
  ghost function WaitingMs(es: seq<Edge>, t: ThreadId, w: TimeWindow): set<int> {
    set m: int | w.startMs <= m < w.endMs && WaitsAt(es, t, m)
  }

  lemma WaitingMsIsBusy(es: seq<Edge>, t: ThreadId, w: TimeWindow)
    ensures WaitingMs(es, t, w) == BusyMs(NormalWaits(es), t, w)
  {
    var waits := NormalWaits(es);
    forall m: int ensures WaitsAt(es, t, m) <==> WaitedFor(waits, t, m) != {} {
      if WaitsAt(es, t, m) {
        var e :| e in es && e.weight.kind == Normal && e.src == t
                 && e.weight.window.startMs <= m < e.weight.window.endMs;
        assert WaitOf(e) in waits && Contains(WaitOf(e).window, m);
        assert e.dst in WaitedFor(waits, t, m);
      }
      if WaitedFor(waits, t, m) != {} {
        var d := Pick(WaitedFor(waits, t, m));
        var x :| x in waits && x.src == t && Contains(x.window, m) && x.dst == d;
        var e :| e in es && e.weight.kind == Normal && WaitOf(e) == x;
      }
    }
  }

  // ---------- the recursion ----------

  /** A thread keeps the whole window if it is cut off, already on the path or
      never waits; otherwise the part of it in which it does not wait. */
  ghost function Kept(es: seq<Edge>, t: ThreadId, w: TimeWindow, levels: nat, path: set<ThreadId>): nat {
    var length, waiting := w.endMs - w.startMs, |WaitingMs(es, t, w)|;
    if levels == 0 || t in path then length
    else if length <= waiting then 0 else length - waiting
  }

  /** What it hands on: per elementary interval and target, what the target takes
      over, divided by the number of targets and then by the number of threads
      that wait for the target during that interval. */
  ghost function HandedOn(es: seq<Edge>, t: ThreadId, w: TimeWindow, levels: nat, path: set<ThreadId>): nat
    decreases levels, 0, 0
  {
    if levels == 0 || t in path then 0
    else HandedOnIn(es, Partition(NormalWaits(es), t, w), levels - 1, path + {t})
  }

  /** What a caller can pass to it. */
  ghost function Taken(es: seq<Edge>, t: ThreadId, w: TimeWindow, levels: nat, path: set<ThreadId>): nat
    decreases levels, 0, 1
  {
    HandedOn(es, t, w, levels, path) + Kept(es, t, w, levels, path)
  }

  ghost function HandedOnIn(es: seq<Edge>, intervals: seq<ElementaryInterval>, levels: nat, path: set<ThreadId>): nat
    decreases levels, 2, |intervals|
  {
    if intervals == [] then 0
    else
      HandedTo(es, intervals[0].window, intervals[0].targets, |intervals[0].targets|, levels, path)
      + HandedOnIn(es, intervals[1..], levels, path)
  }

  ghost function Portion(taken: nat, share: nat, waiting: nat): nat
    requires share > 0 && waiting > 0
  {
    Quotient(Quotient(taken, share), waiting)
  }

  ghost function HandedTo(es: seq<Edge>, w: TimeWindow, targets: seq<ThreadId>, share: nat, levels: nat,
                          path: set<ThreadId>): nat
    decreases levels, 1, |targets|
  {
    if targets == [] || share == 0 then 0
    else
      Portion(Taken(es, targets[0], w, levels, path), share, Divisor(es, targets[0], w))
      + HandedTo(es, w, targets[1..], share, levels, path)
  }

  /** Every call of the recursion is that arithmetic. */
  lemma {:induction false} CascadeIsReference(es: seq<Edge>, t: ThreadId, w: TimeWindow, levels: nat,
                                              path: set<ThreadId>)
    ensures var o := Cascade(NormalWaits(es), t, w, Some(levels), path);
            o.propagated == HandedOn(es, t, w, levels, path) && o.selfBlame == Kept(es, t, w, levels, path)
    decreases levels, 0, 0
  {
    if levels > 0 && t !in path {
      IntervalsAreReference(es, Partition(NormalWaits(es), t, w), levels - 1, path + {t});
      OutcomeIs(es, t, w, levels, path, HandedOn(es, t, w, levels, path));
    } else {
      CascadeUnfolds(NormalWaits(es), t, w, Some(levels), path);
    }
  }

  lemma OutcomeIs(es: seq<Edge>, t: ThreadId, w: TimeWindow, levels: nat, path: set<ThreadId>, sum: nat)
    requires levels > 0 && t !in path
    requires sum == SumIntervals(NormalWaits(es), Partition(NormalWaits(es), t, w), Some(levels - 1), path + {t})
    ensures Cascade(NormalWaits(es), t, w, Some(levels), path) == Outcome(sum, Kept(es, t, w, levels, path))
  {
    CascadeUnfolds(NormalWaits(es), t, w, Some(levels), path);
    KeptIs(es, t, w, levels, path);
  }

  lemma KeptIs(es: seq<Edge>, t: ThreadId, w: TimeWindow, levels: nat, path: set<ThreadId>)
    ensures var intervals := Partition(NormalWaits(es), t, w);
            Kept(es, t, w, levels, path)
            == if levels == 0 || t in path || intervals == [] then Duration(w)
               else SatSub(Duration(w), Coverage(intervals))
  {
    CoverageIsBusyTime(NormalWaits(es), t, w);
    WaitingMsIsBusy(es, t, w);
  }

  lemma {:induction false} IntervalsAreReference(es: seq<Edge>, intervals: seq<ElementaryInterval>, levels: nat,
                                                 path: set<ThreadId>)
    ensures SumIntervals(NormalWaits(es), intervals, Some(levels), path) == HandedOnIn(es, intervals, levels, path)
    decreases levels, 2, |intervals|
  {
    if intervals != [] {
      TargetsAreReference(es, intervals[0].window, intervals[0].targets, |intervals[0].targets|, levels, path);
      IntervalsAreReference(es, intervals[1..], levels, path);
    }
  }

  lemma {:induction false} TargetsAreReference(es: seq<Edge>, w: TimeWindow, targets: seq<ThreadId>, share: nat,
                                               levels: nat, path: set<ThreadId>)
    requires targets != [] ==> share > 0
    ensures SumTargets(NormalWaits(es), w, targets, share, Some(levels), path)
         == HandedTo(es, w, targets, share, levels, path)
    decreases levels, 1, |targets|
  {
    if targets != [] {
      CascadeIsReference(es, targets[0], w, levels, path);
      TargetsAreReference(es, w, targets[1..], share, levels, path);
      var n := Divisor(es, targets[0], w);
      WaitersAreCounted(es, targets[0], w);
      TargetStep(NormalWaits(es), es, w, targets, share, levels, path, n);
    }
  }

  lemma TargetStep(waits: set<Wait>, es: seq<Edge>, w: TimeWindow, targets: seq<ThreadId>, share: nat,
                   levels: nat, path: set<ThreadId>, n: nat)
    requires targets != [] && share > 0 && n == Divisor(es, targets[0], w) == ConcurrentWaiters(waits, targets[0], w)
    requires var child := Cascade(waits, targets[0], w, Some(levels), path);
             child.propagated + child.selfBlame == Taken(es, targets[0], w, levels, path)
    requires SumTargets(waits, w, targets[1..], share, Some(levels), path)
          == HandedTo(es, w, targets[1..], share, levels, path)
    ensures SumTargets(waits, w, targets, share, Some(levels), path) == HandedTo(es, w, targets, share, levels, path)
  {
    TransferIsPortion(Cascade(waits, targets[0], w, Some(levels), path), share, n,
                      Taken(es, targets[0], w, levels, path));
  }

  lemma TransferIsPortion(child: Outcome, share: nat, n: nat, taken: nat)
    requires share > 0 && n > 0 && taken == child.propagated + child.selfBlame
    ensures Transfer(child, share, n) == Portion(taken, share, n)
  {}

  // ---------- the whole pass ----------

  /** What is left of an edge's wait at `maxDepth`: the entry call is at depth 1. */
  ghost function LeftOf(es: seq<Edge>, e: Edge, maxDepth: nat): nat {
    var levels := if maxDepth == 0 then 0 else maxDepth - 1;
    var handedOn := HandedOn(es, e.dst, e.weight.window, levels, {e.src});
    if e.weight.rawWaitMs <= handedOn then 0 else e.weight.rawWaitMs - handedOn
  }

  /** A redistribution at `maxDepth` leaves every edge that much. */
  lemma RedistributionIsReference(es: seq<Edge>, maxDepth: nat)
    ensures var rs := Redistribute(es, LevelsBelowEntry(maxDepth));
            && |rs| == |es|
            && forall i | 0 <= i < |es| :: rs[i] == WithDelay(es[i], LeftOf(es, es[i], maxDepth))
  {
    var rs := Redistribute(es, LevelsBelowEntry(maxDepth));
    forall i | 0 <= i < |es| ensures rs[i] == WithDelay(es[i], LeftOf(es, es[i], maxDepth)) {
      var levels: nat := if maxDepth == 0 then 0 else maxDepth - 1;
      CascadeIsReference(es, es[i].dst, es[i].weight.window, levels, {es[i].src});
    }
  }
}
