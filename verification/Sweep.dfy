/** The sweep-line partition of a thread's waits inside a window
    (src/graph/sweep.rs), and what it means millisecond by millisecond. */
module Sweep {
  import opened Collections
  import opened GraphTypes

  /** An outgoing wait clipped to the query window. */
  datatype Clip = Clip(window: TimeWindow, target: ThreadId)

  ghost function Clips(waits: set<Wait>, node: ThreadId, w: TimeWindow): set<Clip> {
    set e | e in waits && e.src == node && Overlap(w, e.window).Some?
      :: Clip(Overlap(w, e.window).value, e.dst)
  }

  ghost function Boundaries(clips: set<Clip>): set<nat> {
    (set c | c in clips :: c.window.startMs) + (set c | c in clips :: c.window.endMs)
  }

  /** Targets whose clip spans all of `[s, e)`. */
  ghost function ActiveTargets(clips: set<Clip>, s: nat, e: nat): set<ThreadId> {
    set c | c in clips && c.window.startMs <= s && c.window.endMs >= e :: c.target
  }

  /** Sweep over the boundary points, emitting the busy gaps. */
  ghost function Emit(clips: set<Clip>, points: seq<nat>): seq<ElementaryInterval> {
    if |points| < 2 then []
    else
      var rest := Emit(clips, points[1..]);
      var targets := ActiveTargets(clips, points[0], points[1]);
      if points[0] >= points[1] || targets == {} then rest
      else [ElementaryInterval(Span(points[0], points[1]), SortedThreads(targets))] + rest
  }

  function SortedPoints(points: set<nat>): seq<nat> {
    SortedSeqLists(points);
    var r := SortedSeq(points);
    assert forall i | 0 <= i < |r| :: r[i] in r && r[i] >= 0;
    r
  }

  lemma SortedPointsList(points: set<nat>)
    ensures StrictlyIncreasing(SortedPoints(points))
    ensures forall p: nat :: p in SortedPoints(points) <==> p in points
  {
    SortedSeqLists(points);
  }

  ghost function Partition(waits: set<Wait>, node: ThreadId, w: TimeWindow): seq<ElementaryInterval> {
    var clips := Clips(waits, node, w);
    Emit(clips, SortedPoints(Boundaries(clips)))
  }

  // ---------- meaning, one millisecond at a time ----------

  /** The threads that `node` is waiting for at millisecond `m`. */
  ghost function WaitedFor(waits: set<Wait>, node: ThreadId, m: int): set<ThreadId> {
    set e | e in waits && e.src == node && Contains(e.window, m) :: e.dst
  }

  /** The milliseconds of `w` during which `node` is itself waiting. */
  ghost function BusyMs(waits: set<Wait>, node: ThreadId, w: TimeWindow): set<int> {
    set m: int | w.startMs <= m < w.endMs && WaitedFor(waits, node, m) != {}
  }

  ghost function Milliseconds(w: TimeWindow): set<int> {
    set m: int | w.startMs <= m < w.endMs && Contains(w, m)
  }

  ghost function Coverage(intervals: seq<ElementaryInterval>): nat {
    if intervals == [] then 0
    else Duration(intervals[0].window) + Coverage(intervals[1..])
  }

  ghost predicate InSome(intervals: seq<ElementaryInterval>, m: int) {
    exists i :: 0 <= i < |intervals| && Contains(intervals[i].window, m)
  }

  /** Nonempty, in time order, disjoint, within `[lo, hi)`, each with targets
      listed once in ascending order. */
  ghost predicate WellFormed(intervals: seq<ElementaryInterval>, lo: nat, hi: nat) {
    && (forall i | 0 <= i < |intervals| ::
          && lo <= intervals[i].window.startMs < intervals[i].window.endMs <= hi
          && intervals[i].targets != []
          && Ascending(intervals[i].targets))
    && (forall i, j | 0 <= i < j < |intervals| ::
          intervals[i].window.endMs <= intervals[j].window.startMs)
  }

  ghost function ClipTargetsAt(clips: set<Clip>, m: int): set<ThreadId> {
    set c | c in clips && Contains(c.window, m) :: c.target
  }

  lemma ClipTargetsAreWaitedFor(waits: set<Wait>, node: ThreadId, w: TimeWindow, m: int)
    requires Contains(w, m)
    ensures ClipTargetsAt(Clips(waits, node, w), m) == WaitedFor(waits, node, m)
  {
    var clips := Clips(waits, node, w);
    forall t ensures t in ClipTargetsAt(clips, m) <==> t in WaitedFor(waits, node, m) {
      if t in WaitedFor(waits, node, m) {
        var e :| e in waits && e.src == node && Contains(e.window, m) && e.dst == t;
        var o := Overlap(w, e.window);
        assert Clip(o.value, e.dst) in clips;
      }
    }
  }

  lemma BoundaryOf(clips: set<Clip>, c: Clip)
    requires c in clips
    ensures c.window.startMs in Boundaries(clips) && c.window.endMs in Boundaries(clips)
  {}

  /** Between two consecutive boundaries the waited-for set does not change. */
  lemma GapIsConstant(clips: set<Clip>, s: nat, e: nat, m: int)
    requires s <= m < e
    requires forall p | p in Boundaries(clips) :: p <= s || e <= p
    ensures ActiveTargets(clips, s, e) == ClipTargetsAt(clips, m)
  {
    forall t ensures t in ActiveTargets(clips, s, e) <==> t in ClipTargetsAt(clips, m) {
      if t in ClipTargetsAt(clips, m) {
        var c :| c in clips && Contains(c.window, m) && c.target == t;
        BoundaryOf(clips, c);
      }
    }
  }

  lemma WellFormedCons(first: ElementaryInterval, rest: seq<ElementaryInterval>, lo: nat, mid: nat, hi: nat)
    requires WellFormed(rest, mid, hi) && mid <= hi
    requires lo <= first.window.startMs < first.window.endMs <= mid
    requires first.targets != [] && Ascending(first.targets)
    ensures WellFormed([first] + rest, lo, hi)
  {
    var all := [first] + rest;
    assert forall i | 0 < i < |all| :: all[i] == rest[i - 1];
  }

  lemma {:induction false} EmitWellFormed(clips: set<Clip>, points: seq<nat>)
    requires StrictlyIncreasing(points) && points != []
    ensures WellFormed(Emit(clips, points), points[0], points[|points| - 1])
  {
    if |points| >= 2 {
      var tail := points[1..];
      EmitWellFormed(clips, tail);
      assert tail[0] == points[1] && tail[|tail| - 1] == points[|points| - 1];
      var targets := ActiveTargets(clips, points[0], points[1]);
      if targets != {} {
        SortedThreadsLists(targets);
        assert |tail| > 1 ==> tail[0] < tail[|tail| - 1];
        WellFormedCons(ElementaryInterval(Span(points[0], points[1]), SortedThreads(targets)),
                       Emit(clips, tail), points[0], points[1], points[|points| - 1]);
      }
    }
  }

  /** Points that the sweep has not yet passed are all still in `points`. */
  ghost predicate Remaining(clips: set<Clip>, points: seq<nat>) {
    forall p: nat :: p in Boundaries(clips) && points != [] && p >= points[0] ==> p in points
  }

  lemma RemainingTail(clips: set<Clip>, points: seq<nat>)
    requires StrictlyIncreasing(points) && |points| >= 2 && Remaining(clips, points)
    ensures Remaining(clips, points[1..])
    ensures forall p | p in Boundaries(clips) :: p <= points[0] || points[1] <= p
  {
    forall p: nat | p in Boundaries(clips) && p > points[0] ensures p in points[1..] {
      assert p in points;
      var k :| 0 <= k < |points| && points[k] == p;
      assert points[1..][k - 1] == p;
    }
    forall p | p in Boundaries(clips) ensures p <= points[0] || points[1] <= p {
      if p > points[0] {
        var k :| 0 <= k < |points[1..]| && points[1..][k] == p;
      }
    }
  }

  lemma LastPoint(clips: set<Clip>, points: seq<nat>, m: int)
    requires |points| == 1 && Remaining(clips, points) && m >= points[0]
    ensures ClipTargetsAt(clips, m) == {}
  {
    forall c | c in clips ensures !Contains(c.window, m) {
      BoundaryOf(clips, c);
      var e: nat := c.window.endMs;
      assert e > m ==> e in points;
    }
  }

  /** What an interval list says about millisecond `m`: it lies in an interval
      exactly when something is active, and that interval lists what is. */
  ghost predicate ExactAt(intervals: seq<ElementaryInterval>, m: int, active: set<ThreadId>) {
    && (InSome(intervals, m) <==> active != {})
    && (forall i | 0 <= i < |intervals| && Contains(intervals[i].window, m) ::
          intervals[i].targets == SortedThreads(active))
  }

  lemma ExactCons(first: ElementaryInterval, rest: seq<ElementaryInterval>, m: int, active: set<ThreadId>)
    requires first.targets != []
    requires Contains(first.window, m) ==> first.targets == SortedThreads(active)
    requires Contains(first.window, m) ==> !InSome(rest, m)
    requires !Contains(first.window, m) ==> ExactAt(rest, m, active)
    ensures ExactAt([first] + rest, m, active)
  {
    InSomeCons(first, rest, m);
    var all := [first] + rest;
    SortedThreadsLists(active);
    forall i | 0 <= i < |all| && Contains(all[i].window, m) ensures all[i].targets == SortedThreads(active) {
      if i > 0 {
        assert all[i] == rest[i - 1];
        assert InSome(rest, m);
      }
    }
  }

  lemma InSomeCons(first: ElementaryInterval, rest: seq<ElementaryInterval>, m: int)
    ensures InSome([first] + rest, m) <==> Contains(first.window, m) || InSome(rest, m)
  {
    var all := [first] + rest;
    if InSome(all, m) && !Contains(first.window, m) {
      var i :| 0 <= i < |all| && Contains(all[i].window, m);
      assert rest[i - 1] == all[i];
    }
    if InSome(rest, m) {
      var i :| 0 <= i < |rest| && Contains(rest[i].window, m);
      assert all[i + 1] == rest[i];
    }
    if Contains(first.window, m) {
      assert all[0] == first;
    }
  }

  lemma {:induction false} EmitExact(clips: set<Clip>, points: seq<nat>, m: int)
    requires StrictlyIncreasing(points) && points != [] && Remaining(clips, points)
    requires points[0] <= m
    ensures ExactAt(Emit(clips, points), m, ClipTargetsAt(clips, m))
  {
    if |points| == 1 {
      LastPoint(clips, points, m);
    } else {
      RemainingTail(clips, points);
      EmitWellFormed(clips, points[1..]);
      if m < points[1] {
        GapIsConstant(clips, points[0], points[1], m);
      } else {
        EmitExact(clips, points[1..], m);
      }
      var targets := ActiveTargets(clips, points[0], points[1]);
      if targets != {} {
        SortedThreadsLists(targets);
        ExactCons(ElementaryInterval(Span(points[0], points[1]), SortedThreads(targets)),
                  Emit(clips, points[1..]), m, ClipTargetsAt(clips, m));
      }
    }
  }

  // ---------- covered time ----------

  lemma {:induction false} MillisecondCount(lo: nat, hi: nat)
    requires lo <= hi
    ensures |Milliseconds(Span(lo, hi))| == hi - lo
    decreases hi - lo
  {
    var w := Span(lo, hi);
    if lo == hi {
      assert Milliseconds(w) == {};
    } else {
      MillisecondCount(lo, hi - 1);
      var last: int := hi - 1;
      assert Contains(w, last);
      forall m: int ensures m in Milliseconds(w) <==> m in Milliseconds(Span(lo, hi - 1)) + {last} {
        assert Contains(w, m) <==> Contains(Span(lo, hi - 1), m) || m == last;
      }
      assert Milliseconds(w) == Milliseconds(Span(lo, hi - 1)) + {last};
    }
  }

  ghost function MsIn(intervals: seq<ElementaryInterval>, lo: nat, hi: nat): set<int> {
    set m: int | lo <= m < hi && InSome(intervals, m)
  }

  lemma WellFormedTail(intervals: seq<ElementaryInterval>, lo: nat, hi: nat)
    requires WellFormed(intervals, lo, hi) && intervals != []
    ensures WellFormed(intervals[1..], intervals[0].window.endMs, hi)
  {
    var rest := intervals[1..];
    assert forall i | 0 <= i < |rest| :: rest[i] == intervals[i + 1];
  }

  /** The milliseconds of the first interval come before all the others. */
  lemma MsInCons(first: ElementaryInterval, rest: seq<ElementaryInterval>, lo: nat, hi: nat)
    requires lo <= first.window.startMs && WellFormed(rest, first.window.endMs, hi) && first.window.endMs <= hi
    ensures MsIn([first] + rest, lo, hi) == Milliseconds(first.window) + MsIn(rest, first.window.endMs, hi)
    ensures Milliseconds(first.window) !! MsIn(rest, first.window.endMs, hi)
  {
    forall m: int
      ensures m in MsIn([first] + rest, lo, hi) <==>
              m in Milliseconds(first.window) || m in MsIn(rest, first.window.endMs, hi)
    {
      InSomeCons(first, rest, m);
      if InSome(rest, m) {
        var i :| 0 <= i < |rest| && Contains(rest[i].window, m);
        assert first.window.endMs <= m;
      }
    }
  }

  lemma {:induction false} CoverageIsCount(intervals: seq<ElementaryInterval>, lo: nat, hi: nat)
    requires WellFormed(intervals, lo, hi) && lo <= hi
    ensures Coverage(intervals) == |MsIn(intervals, lo, hi)|
    decreases |intervals|
  {
    if intervals == [] {
      assert MsIn(intervals, lo, hi) == {};
    } else {
      var first, rest := intervals[0], intervals[1..];
      assert intervals == [first] + rest;
      WellFormedTail(intervals, lo, hi);
      CoverageIsCount(rest, first.window.endMs, hi);
      MillisecondCount(first.window.startMs, first.window.endMs);
      MsInCons(first, rest, lo, hi);
    }
  }

  lemma BoundariesInside(waits: set<Wait>, node: ThreadId, w: TimeWindow)
    ensures forall p | p in Boundaries(Clips(waits, node, w)) :: w.startMs <= p <= w.endMs
  {
    forall c | c in Clips(waits, node, w)
      ensures w.startMs <= c.window.startMs <= c.window.endMs <= w.endMs
    {
    }
  }

  lemma EnumerationRemains(clips: set<Clip>)
    ensures Remaining(clips, SortedPoints(Boundaries(clips)))
  {
    SortedPointsList(Boundaries(clips));
  }

  /** The partition is well formed inside the window and exact at every
      millisecond of it. */
  lemma PartitionExact(waits: set<Wait>, node: ThreadId, w: TimeWindow)
    ensures WellFormed(Partition(waits, node, w), w.startMs, w.endMs)
    ensures forall m | Contains(w, m) ::
              ExactAt(Partition(waits, node, w), m, WaitedFor(waits, node, m))
  {
    var clips := Clips(waits, node, w);
    var points := SortedPoints(Boundaries(clips));
    SortedPointsList(Boundaries(clips));
    BoundariesInside(waits, node, w);
    EnumerationRemains(clips);
    if points != [] {
      EmitWellFormed(clips, points);
      var lo, hi := points[0], points[|points| - 1];
      assert lo in points && hi in points;
    }
    forall m | Contains(w, m)
      ensures ExactAt(Partition(waits, node, w), m, WaitedFor(waits, node, m))
    {
      ClipTargetsAreWaitedFor(waits, node, w, m);
      if points != [] && points[0] <= m {
        EmitExact(clips, points, m);
      } else {
        forall c | c in clips ensures !Contains(c.window, m) {
          BoundaryOf(clips, c);
          var s: nat := c.window.startMs;
          assert s in points;
          var k :| 0 <= k < |points| && points[k] == s;
        }
        assert !InSome(Partition(waits, node, w), m);
      }
    }
  }

  /** Total length of the partition = number of milliseconds the thread waits. */
  lemma CoverageIsBusyTime(waits: set<Wait>, node: ThreadId, w: TimeWindow)
    ensures Coverage(Partition(waits, node, w)) == |BusyMs(waits, node, w)| <= Duration(w)
  {
    PartitionExact(waits, node, w);
    var p := Partition(waits, node, w);
    CoverageIsCount(p, w.startMs, w.endMs);
    forall m: int ensures m in MsIn(p, w.startMs, w.endMs) <==> m in BusyMs(waits, node, w) {
      assert Contains(w, m) ==> ExactAt(p, m, WaitedFor(waits, node, m));
    }
    assert MsIn(p, w.startMs, w.endMs) == BusyMs(waits, node, w);
    MillisecondCount(w.startMs, w.endMs);
    forall m | m in BusyMs(waits, node, w) ensures m in Milliseconds(w) {
      assert Contains(w, m);
    }
    SubsetSize(BusyMs(waits, node, w), Milliseconds(w));
  }
}
