/** When the elementary intervals are maximal (src/graph/types.rs calls them so,
    src/graph/sweep.rs cuts at every boundary). */
module Maximality {
  import opened Collections
  import opened GraphTypes
  import opened Sweep

  /** No two intervals that touch have the same targets: none could be longer. */
  ghost predicate Maximal(intervals: seq<ElementaryInterval>) {
    forall i | 0 <= i < |intervals| - 1 && intervals[i].window.endMs == intervals[i + 1].window.startMs ::
      intervals[i].targets != intervals[i + 1].targets
  }

  /** A nonempty wait of `node` starts or ends at `p`. */
  ghost predicate TurningPoint(waits: set<Wait>, node: ThreadId, p: nat) {
    exists e :: e in waits && e.src == node && e.window.startMs < e.window.endMs
                && (e.window.startMs == p || e.window.endMs == p)
  }

  /** Whenever a wait starts or ends inside `w`, the set of threads waited for
      changes, unless it stays empty. */
  ghost predicate EveryTurnShows(waits: set<Wait>, node: ThreadId, w: TimeWindow) {
    forall p: nat | w.startMs < p < w.endMs && TurningPoint(waits, node, p) ::
      WaitedFor(waits, node, p - 1) == WaitedFor(waits, node, p) ==> WaitedFor(waits, node, p) == {}
  }

  lemma BoundaryTurns(waits: set<Wait>, node: ThreadId, w: TimeWindow, p: nat)
    requires w.startMs < p < w.endMs && p in Boundaries(Clips(waits, node, w))
    ensures TurningPoint(waits, node, p)
  {
    var c :| c in Clips(waits, node, w) && (c.window.startMs == p || c.window.endMs == p);
    var e :| e in waits && e.src == node && Overlap(w, e.window).Some?
             && Clip(Overlap(w, e.window).value, e.dst) == c;
    assert e.window.startMs == p || e.window.endMs == p;
  }

  lemma TurnIsBoundary(waits: set<Wait>, node: ThreadId, w: TimeWindow, p: nat)
    requires w.startMs < p < w.endMs && TurningPoint(waits, node, p)
    ensures p in Boundaries(Clips(waits, node, w))
  {
    var e :| e in waits && e.src == node && e.window.startMs < e.window.endMs
             && (e.window.startMs == p || e.window.endMs == p);
    var m := if e.window.startMs == p then p else p - 1;
    assert Contains(w, m) && Contains(e.window, m);
    var c := Clip(Overlap(w, e.window).value, e.dst);
    assert c in Clips(waits, node, w) && (c.window.startMs == p || c.window.endMs == p);
    BoundaryOf(Clips(waits, node, w), c);
  }

  // ---------- intervals run from one boundary to the next ----------

  ghost predicate Between(interval: ElementaryInterval, points: seq<nat>) {
    && interval.window.startMs in points && interval.window.endMs in points
    && forall p | p in points :: p <= interval.window.startMs || interval.window.endMs <= p
  }

  lemma {:induction false} EmitBetween(clips: set<Clip>, points: seq<nat>, interval: ElementaryInterval)
    requires StrictlyIncreasing(points) && interval in Emit(clips, points)
    ensures Between(interval, points)
  {
    var rest := points[1..];
    assert points == [points[0]] + rest;
    assert rest != [] ==> rest[0] in rest;
    forall p | p in rest ensures points[0] < p && rest[0] <= p {
      var i :| 0 <= i < |rest| && rest[i] == p;
    }
    if interval in Emit(clips, rest) {
      EmitBetween(clips, rest, interval);
      assert interval.window.startMs in rest;
    }
  }

  lemma PartitionBetween(waits: set<Wait>, node: ThreadId, w: TimeWindow, i: nat, p: nat)
    requires i < |Partition(waits, node, w)|
    requires w.startMs < p < w.endMs
    ensures var window := Partition(waits, node, w)[i].window;
            && (p == window.startMs || p == window.endMs ==> TurningPoint(waits, node, p))
            && (TurningPoint(waits, node, p) ==> p <= window.startMs || window.endMs <= p)
  {
    var clips := Clips(waits, node, w);
    var interval := Partition(waits, node, w)[i];
    assert interval in Partition(waits, node, w);
    SortedPointsList(Boundaries(clips));
    EmitBetween(clips, SortedPoints(Boundaries(clips)), interval);
    if TurningPoint(waits, node, p) {
      TurnIsBoundary(waits, node, w, p);
    }
    if p == interval.window.startMs || p == interval.window.endMs {
      BoundaryTurns(waits, node, w, p);
    }
  }

  // ---------- maximal exactly when every turn shows ----------

  lemma SameTargets(waits: set<Wait>, node: ThreadId, w: TimeWindow, i: nat, m: int, j: nat, n: int)
    requires var intervals := Partition(waits, node, w);
             && i < |intervals| && j < |intervals|
             && Contains(intervals[i].window, m) && Contains(intervals[j].window, n)
    ensures var intervals := Partition(waits, node, w);
            && Contains(w, m) && Contains(w, n)
            && (intervals[i].targets == intervals[j].targets
                <==> WaitedFor(waits, node, m) == WaitedFor(waits, node, n))
            && WaitedFor(waits, node, m) != {}
  {
    var intervals := Partition(waits, node, w);
    PartitionExact(waits, node, w);
    assert Contains(w, m) && Contains(w, n);
    var a, b := WaitedFor(waits, node, m), WaitedFor(waits, node, n);
    assert ExactAt(intervals, m, a) && ExactAt(intervals, n, b);
    SortedThreadsLists(a);
    SortedThreadsLists(b);
    if SortedThreads(a) == SortedThreads(b) {
      assert forall t :: t in a <==> t in b;
      assert a == b;
    }
    assert intervals[i].targets != [];
  }

  /** Where the thread waits on both sides of a turning point, two intervals touch. */
  lemma TouchAt(waits: set<Wait>, node: ThreadId, w: TimeWindow, p: nat) returns (i: nat)
    requires w.startMs < p < w.endMs && TurningPoint(waits, node, p)
    requires WaitedFor(waits, node, p - 1) == WaitedFor(waits, node, p) != {}
    ensures var intervals := Partition(waits, node, w);
            && i + 1 < |intervals| && intervals[i].window.endMs == p == intervals[i + 1].window.startMs
            && intervals[i].targets == intervals[i + 1].targets
  {
    i := IntervalAt(waits, node, w, p - 1);
    var j := IntervalAt(waits, node, w, p);
    PartitionBetween(waits, node, w, i, p);
    PartitionBetween(waits, node, w, j, p);
    Consecutive(Partition(waits, node, w), w, i, j, p);
    SameTargets(waits, node, w, i, p - 1, j, p);
  }

  lemma IntervalAt(waits: set<Wait>, node: ThreadId, w: TimeWindow, m: nat) returns (i: nat)
    requires Contains(w, m) && WaitedFor(waits, node, m) != {}
    ensures var intervals := Partition(waits, node, w);
            i < |intervals| && Contains(intervals[i].window, m) && WellFormed(intervals, w.startMs, w.endMs)
  {
    PartitionExact(waits, node, w);
    assert ExactAt(Partition(waits, node, w), m, WaitedFor(waits, node, m));
    i :| 0 <= i < |Partition(waits, node, w)| && Contains(Partition(waits, node, w)[i].window, m);
  }

  lemma Consecutive(intervals: seq<ElementaryInterval>, w: TimeWindow, i: nat, j: nat, p: nat)
    requires WellFormed(intervals, w.startMs, w.endMs) && i < |intervals| && j < |intervals|
    requires intervals[i].window.endMs == p == intervals[j].window.startMs
    ensures j == i + 1
  {
    assert intervals[i].window.startMs < p < intervals[j].window.endMs;
    var k := if i + 1 < j then i + 1 else j;
    var between := intervals[k].window;
    assert i < k ==> p <= between.startMs;
    assert k < j ==> between.endMs <= p;
    assert between.startMs < between.endMs;
  }

  lemma MaximalShows(waits: set<Wait>, node: ThreadId, w: TimeWindow)
    requires Maximal(Partition(waits, node, w))
    ensures EveryTurnShows(waits, node, w)
  {
    forall p: nat | w.startMs < p < w.endMs && TurningPoint(waits, node, p)
                    && WaitedFor(waits, node, p - 1) == WaitedFor(waits, node, p)
      ensures WaitedFor(waits, node, p) == {}
    {
      if WaitedFor(waits, node, p) != {} {
        var i := TouchAt(waits, node, w, p);
        assert false;
      }
    }
  }

  lemma TouchShows(waits: set<Wait>, node: ThreadId, w: TimeWindow, i: nat)
    requires EveryTurnShows(waits, node, w) && i + 1 < |Partition(waits, node, w)|
    requires Partition(waits, node, w)[i].window.endMs == Partition(waits, node, w)[i + 1].window.startMs
    ensures Partition(waits, node, w)[i].targets != Partition(waits, node, w)[i + 1].targets
  {
    var intervals := Partition(waits, node, w);
    PartitionExact(waits, node, w);
    var p: nat := intervals[i].window.endMs;
    assert Contains(intervals[i].window, p - 1) && Contains(intervals[i + 1].window, p);
    SameTargets(waits, node, w, i, p - 1, i + 1, p);
    PartitionBetween(waits, node, w, i, p);
  }

  lemma ShowingIsMaximal(waits: set<Wait>, node: ThreadId, w: TimeWindow)
    requires EveryTurnShows(waits, node, w)
    ensures Maximal(Partition(waits, node, w))
  {
    var intervals := Partition(waits, node, w);
    forall i | 0 <= i < |intervals| - 1 && intervals[i].window.endMs == intervals[i + 1].window.startMs
      ensures intervals[i].targets != intervals[i + 1].targets
    {
      TouchShows(waits, node, w, i);
    }
  }

  /** The elementary intervals are maximal exactly when every start or end of a
      wait inside the window changes whom the thread waits for. */
  lemma MaximalExactly(waits: set<Wait>, node: ThreadId, w: TimeWindow)
    ensures Maximal(Partition(waits, node, w)) <==> EveryTurnShows(waits, node, w)
  {
    if Maximal(Partition(waits, node, w)) {
      MaximalShows(waits, node, w);
    }
    if EveryTurnShows(waits, node, w) {
      ShowingIsMaximal(waits, node, w);
    }
  }

  // ---------- a cut that does not show ----------

  const NODE: ThreadId := ThreadId(1)
  const TARGET: ThreadId := ThreadId(2)
  const WHOLE: TimeWindow := Span(0, 15)

  /** Two overlapping waits for the same thread. */
  ghost function TwoWaits(): set<Wait> {
    {Wait(NODE, TARGET, Span(0, 10)), Wait(NODE, TARGET, Span(5, 15))}
  }

  lemma TwoClips()
    ensures Clips(TwoWaits(), NODE, WHOLE) == {Clip(Span(0, 10), TARGET), Clip(Span(5, 15), TARGET)}
  {
    var a, b := Wait(NODE, TARGET, Span(0, 10)), Wait(NODE, TARGET, Span(5, 15));
    assert a in TwoWaits() && b in TwoWaits();
    assert Contains(WHOLE, 5) && Contains(a.window, 5) && Contains(b.window, 5);
    assert Overlap(WHOLE, a.window) == Some(a.window) && Overlap(WHOLE, b.window) == Some(b.window);
  }

  lemma FourPoints(clips: set<Clip>)
    requires clips == {Clip(Span(0, 10), TARGET), Clip(Span(5, 15), TARGET)}
    ensures SortedPoints(Boundaries(clips)) == [0, 5, 10, 15]
  {
    var a, b := Clip(Span(0, 10), TARGET), Clip(Span(5, 15), TARGET);
    assert a in clips && b in clips;
    BoundaryOf(clips, a);
    BoundaryOf(clips, b);
    SortedPointsList(Boundaries(clips));
    IncreasingUnique(SortedPoints(Boundaries(clips)), [0, 5, 10, 15]);
  }

  lemma OneStretch(clips: set<Clip>, s: nat, e: nat)
    requires clips == {Clip(Span(0, 10), TARGET), Clip(Span(5, 15), TARGET)}
    requires (s == 0 && e == 5) || (s == 5 && e == 10) || (s == 10 && e == 15)
    ensures ActiveTargets(clips, s, e) == {TARGET} && SortedThreads({TARGET}) == [TARGET]
  {
    var a, b := Clip(Span(0, 10), TARGET), Clip(Span(5, 15), TARGET);
    assert a in clips && b in clips;
    SortedThreadsLists({TARGET});
    AscendingUnique(SortedThreads({TARGET}), [TARGET]);
  }

  lemma EmitOne(clips: set<Clip>, s: nat, e: nat, rest: seq<nat>)
    requires clips == {Clip(Span(0, 10), TARGET), Clip(Span(5, 15), TARGET)}
    requires (s == 0 && e == 5) || (s == 5 && e == 10) || (s == 10 && e == 15)
    ensures Emit(clips, [s, e] + rest) == [ElementaryInterval(Span(s, e), [TARGET])] + Emit(clips, [e] + rest)
  {
    OneStretch(clips, s, e);
    assert ([s, e] + rest)[1..] == [e] + rest;
  }

  lemma EmitFour(clips: set<Clip>)
    requires clips == {Clip(Span(0, 10), TARGET), Clip(Span(5, 15), TARGET)}
    ensures Emit(clips, [0, 5, 10, 15])
         == [ElementaryInterval(Span(0, 5), [TARGET]), ElementaryInterval(Span(5, 10), [TARGET]),
             ElementaryInterval(Span(10, 15), [TARGET])]
  {
    EmitOne(clips, 0, 5, [10, 15]);
    EmitOne(clips, 5, 10, [15]);
    EmitOne(clips, 10, 15, []);
    assert [0, 5] + [10, 15] == [0, 5, 10, 15] && [5] + [10, 15] == [5, 10] + [15];
    assert [10] + [15] == [10, 15] + [] && [15] + [] == [15];
  }

  /** One thread is waited for all the time, yet the partition has three pieces. */
  lemma CutsThatDoNotShow()
    ensures Partition(TwoWaits(), NODE, WHOLE)
         == [ElementaryInterval(Span(0, 5), [TARGET]), ElementaryInterval(Span(5, 10), [TARGET]),
             ElementaryInterval(Span(10, 15), [TARGET])]
    ensures !Maximal(Partition(TwoWaits(), NODE, WHOLE))
  {
    var clips := Clips(TwoWaits(), NODE, WHOLE);
    TwoClips();
    FourPoints(clips);
    EmitFour(clips);
    var q := Partition(TwoWaits(), NODE, WHOLE);
    assert q[0].window.endMs == q[1].window.startMs && q[0].targets == q[1].targets;
  }
}
