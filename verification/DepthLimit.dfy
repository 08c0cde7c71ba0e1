/** Where depth monotonicity stops: at a thread waited for by several others
    (src/cascade/invariants.rs). */
module DepthLimit {
  import opened Collections
  import opened GraphTypes
  import opened Sweep
  import opened CascadeSpec
  import opened Attribution

  /** Throughout `w` the thread waits for exactly `targets`: each of its waits
      spans all of `w` or misses it. */
  ghost predicate Steady(waits: set<Wait>, node: ThreadId, targets: set<ThreadId>, w: TimeWindow) {
    && w.startMs < w.endMs && targets != {}
    && (forall e | e in waits && e.src == node && Overlap(w, e.window).Some? ::
          Overlap(w, e.window) == Some(w) && e.dst in targets)
    && forall t | t in targets ::
         exists e :: e in waits && e.src == node && e.dst == t && Overlap(w, e.window) == Some(w)
  }

  lemma SteadyClips(waits: set<Wait>, node: ThreadId, targets: set<ThreadId>, w: TimeWindow)
    requires Steady(waits, node, targets, w)
    ensures Clips(waits, node, w) == set t | t in targets :: Clip(w, t)
  {
    forall t | t in targets ensures Clip(w, t) in Clips(waits, node, w) {
      var e :| e in waits && e.src == node && e.dst == t && Overlap(w, e.window) == Some(w);
      assert Clip(Overlap(w, e.window).value, e.dst) == Clip(w, t);
    }
  }

  lemma TwoPoints(points: seq<nat>, a: nat, b: nat)
    requires StrictlyIncreasing(points) && a < b && a in points && b in points
    requires forall p | p in points :: p == a || p == b
    ensures points == [a, b]
  {
    IncreasingUnique(points, [a, b]);
  }

  lemma ClipPoints(clips: set<Clip>, clip: Clip)
    requires clip in clips && forall c | c in clips :: c.window == clip.window
    requires clip.window.startMs < clip.window.endMs
    ensures SortedPoints(Boundaries(clips)) == [clip.window.startMs, clip.window.endMs]
  {
    var a, b := clip.window.startMs, clip.window.endMs;
    var marks := Boundaries(clips);
    assert a in marks && b in marks && forall p | p in marks :: p == a || p == b;
    SortedPointsList(marks);
    TwoPoints(SortedPoints(marks), a, b);
  }

  /** A steady thread has a single elementary interval. */
  lemma SteadyPartition(waits: set<Wait>, node: ThreadId, targets: set<ThreadId>, w: TimeWindow)
    requires Steady(waits, node, targets, w)
    ensures Partition(waits, node, w) == [ElementaryInterval(w, SortedThreads(targets))]
  {
    var clips := Clips(waits, node, w);
    SteadyClips(waits, node, targets, w);
    var t := Pick(targets);
    assert Clip(w, t) in clips;
    ClipPoints(clips, Clip(w, t));
    EmitSteady(clips, targets, w);
  }

  lemma EmitSteady(clips: set<Clip>, targets: set<ThreadId>, w: TimeWindow)
    requires clips == (set t | t in targets :: Clip(w, t)) && targets != {} && w.startMs < w.endMs
    ensures Emit(clips, [w.startMs, w.endMs]) == [ElementaryInterval(w, SortedThreads(targets))]
  {
    var points := [w.startMs, w.endMs];
    assert Emit(clips, points[1..]) == [];
    forall t | t in targets ensures t in ActiveTargets(clips, w.startMs, w.endMs) {
      assert Clip(w, t) in clips;
    }
    assert ActiveTargets(clips, w.startMs, w.endMs) == targets;
  }

  lemma OneThread(t: ThreadId)
    ensures SortedThreads({t}) == [t]
  {
    SortedThreadsLists({t});
    AscendingUnique(SortedThreads({t}), [t]);
  }

  lemma OneTargetSum(waits: set<Wait>, w: TimeWindow, target: ThreadId, left: Option<nat>, path: set<ThreadId>,
                     child: Outcome, absorbed: nat)
    requires child == Cascade(waits, target, w, left, path) && absorbed == child.propagated + child.selfBlame
    ensures SumTargets(waits, w, [target], 1, left, path) == Quotient(absorbed, ConcurrentWaiters(waits, target, w))
  {
    var targets := [target];
    assert targets[1..] == [];
    assert SumTargets(waits, w, targets[1..], 1, left, path) == 0;
    DivideByOne(absorbed);
  }

  lemma SumOfOne(waits: set<Wait>, w: TimeWindow, target: ThreadId, left: Option<nat>, path: set<ThreadId>)
    ensures var intervals := [ElementaryInterval(w, [target])];
            && Coverage(intervals) == Duration(w)
            && SumIntervals(waits, intervals, left, path) == SumTargets(waits, w, [target], 1, left, path)
  {
    var intervals := [ElementaryInterval(w, [target])];
    assert intervals[1..] == [];
    assert SumIntervals(waits, intervals[1..], left, path) == 0;
  }

  /** A thread waiting for one other hands on what that one absorbed, divided by
      the number of threads waiting for it. */
  lemma LoneTransfer(waits: set<Wait>, node: ThreadId, target: ThreadId, w: TimeWindow,
                     left: Option<nat>, path: set<ThreadId>, child: Outcome, absorbed: nat)
    requires Steady(waits, node, {target}, w)
    requires left != Some(0) && node !in path
    requires child == Cascade(waits, target, w, Spend(left), path + {node})
    requires absorbed == child.propagated + child.selfBlame
    ensures Cascade(waits, node, w, left, path) == Outcome(Quotient(absorbed, ConcurrentWaiters(waits, target, w)), 0)
  {
    SteadyPartition(waits, node, {target}, w);
    OneThread(target);
    CascadeUnfolds(waits, node, w, left, path);
    OneTargetSum(waits, w, target, Spend(left), path + {node}, child, absorbed);
    SumOfOne(waits, w, target, Spend(left), path + {node});
  }

  /** Over one window `b` waits for `c` and `c` for `d`, which waits for nobody;
      `k` threads wait for `d` and nobody but `b` for `c`. */
  ghost predicate TwoStepsToLeaf(waits: set<Wait>, b: ThreadId, c: ThreadId, d: ThreadId, w: TimeWindow, k: nat) {
    && b != c && k > 0
    && Steady(waits, b, {c}, w) && Steady(waits, c, {d}, w) && d !in Sources(waits)
    && ConcurrentWaiters(waits, c, w) == 1 && ConcurrentWaiters(waits, d, w) == k
  }

  lemma LeafOutcome(waits: set<Wait>, d: ThreadId, w: TimeWindow, left: Option<nat>, path: set<ThreadId>)
    requires d !in Sources(waits)
    ensures Cascade(waits, d, w, left, path) == Outcome(0, Duration(w))
  {
    CascadeUnfolds(waits, d, w, left, path);
    if Partition(waits, d, w) != [] {
      PartitionNeedsSource(waits, d, w);
    }
  }

  lemma ThirdThread(waits: set<Wait>, c: ThreadId, d: ThreadId, w: TimeWindow, left: Option<nat>, path: set<ThreadId>)
    requires Steady(waits, c, {d}, w) && d !in Sources(waits)
    requires left != Some(0) && c !in path
    ensures Cascade(waits, c, w, left, path) == Outcome(Quotient(Duration(w), ConcurrentWaiters(waits, d, w)), 0)
  {
    LeafOutcome(waits, d, w, Spend(left), path + {c});
    LoneTransfer(waits, c, d, w, left, path, Outcome(0, Duration(w)), Duration(w));
  }

  lemma UndividedTransfer(waits: set<Wait>, b: ThreadId, c: ThreadId, w: TimeWindow,
                          left: Option<nat>, path: set<ThreadId>, child: Outcome)
    requires Steady(waits, b, {c}, w) && ConcurrentWaiters(waits, c, w) == 1
    requires left != Some(0) && b !in path && child == Cascade(waits, c, w, Spend(left), path + {b})
    ensures Cascade(waits, b, w, left, path).propagated == child.propagated + child.selfBlame
  {
    var absorbed: nat := child.propagated + child.selfBlame;
    LoneTransfer(waits, b, c, w, left, path, child, absorbed);
    DivideByOne(absorbed);
  }

  /** The depth limit decides whether `b` hands on the whole window or the share
      of one of `k` waiters. */
  lemma DepthDecides(waits: set<Wait>, b: ThreadId, c: ThreadId, d: ThreadId, w: TimeWindow, k: nat,
                     left: Option<nat>, path: set<ThreadId>)
    requires TwoStepsToLeaf(waits, b, c, d, w, k) && left != Some(0) && b !in path && c !in path
    ensures Cascade(waits, b, w, left, path).propagated
         == if left == Some(1) then Duration(w) else Quotient(Duration(w), k)
  {
    if left == Some(1) {
      CascadeUnfolds(waits, c, w, Spend(left), path + {b});
      UndividedTransfer(waits, b, c, w, left, path, Outcome(0, Duration(w)));
    } else {
      ThirdThread(waits, c, d, w, Spend(left), path + {b});
      UndividedTransfer(waits, b, c, w, left, path, Outcome(Quotient(Duration(w), k), 0));
    }
  }

  // ---------- a concrete graph ----------

  const W: TimeWindow := Span(0, 4)

  function Over(src: int, dst: int, w: TimeWindow): Edge {
    Edge(ThreadId(src), ThreadId(dst), NewWeight(w, None, Normal))
  }

  function Waiting(src: int, dst: int): Edge {
    Over(src, dst, W)
  }

  /** A chain 1, 2, 3, 4 whose last thread is also waited for by thread 5. */
  function FanIn(): seq<Edge> {
    [Waiting(1, 2), Waiting(2, 3), Waiting(3, 4), Waiting(5, 4)]
  }

  lemma FanInWaits(waits: set<Wait>)
    requires waits == NormalWaits(FanIn())
    ensures waits == {Wait(ThreadId(1), ThreadId(2), W), Wait(ThreadId(2), ThreadId(3), W),
                      Wait(ThreadId(3), ThreadId(4), W), Wait(ThreadId(5), ThreadId(4), W)}
  {
    var es := FanIn();
    assert es[0] in es && es[1] in es && es[2] in es && es[3] in es;
    assert WaitOf(es[0]) in waits && WaitOf(es[1]) in waits && WaitOf(es[2]) in waits && WaitOf(es[3]) in waits;
  }

  lemma FanInWaiters(waits: set<Wait>)
    requires waits == NormalWaits(FanIn())
    ensures ConcurrentWaiters(waits, ThreadId(3), W) == 1 && ConcurrentWaiters(waits, ThreadId(4), W) == 2
  {
    FanInWaits(waits);
    assert Overlap(W, W).Some?;
    var e, f := Wait(ThreadId(2), ThreadId(3), W), Wait(ThreadId(3), ThreadId(4), W);
    var g := Wait(ThreadId(5), ThreadId(4), W);
    assert e in waits && f in waits && g in waits;
    assert e.src in Waiters(waits, ThreadId(3), W);
    assert Waiters(waits, ThreadId(3), W) == {ThreadId(2)};
    assert f.src in Waiters(waits, ThreadId(4), W) && g.src in Waiters(waits, ThreadId(4), W);
    assert Waiters(waits, ThreadId(4), W) == {ThreadId(3), ThreadId(5)};
  }

  lemma FanInShape(waits: set<Wait>)
    requires waits == NormalWaits(FanIn())
    ensures TwoStepsToLeaf(waits, ThreadId(2), ThreadId(3), ThreadId(4), W, 2)
  {
    FanInWaits(waits);
    FanInWaiters(waits);
    assert Overlap(W, W) == Some(W);
    assert Wait(ThreadId(2), ThreadId(3), W) in waits && Wait(ThreadId(3), ThreadId(4), W) in waits;
  }

  lemma FourEdges(es: seq<Edge>)
    requires |es| == 4
    ensures TotalAttributed(es) == es[0].weight.attributedDelayMs + es[1].weight.attributedDelayMs
                                 + es[2].weight.attributedDelayMs + es[3].weight.attributedDelayMs
  {
    var tail := es[1..];
    var end := tail[1..];
    assert TotalAttributed(end[1..]) == end[1].weight.attributedDelayMs + TotalAttributed(end[1..][1..]);
    assert TotalAttributed(end) == end[0].weight.attributedDelayMs + TotalAttributed(end[1..]);
    assert TotalAttributed(tail) == tail[0].weight.attributedDelayMs + TotalAttributed(end);
  }

  lemma FanInPropagated(waits: set<Wait>, left: Option<nat>)
    requires waits == NormalWaits(FanIn()) && left != Some(0)
    ensures Propagated(waits, Waiting(1, 2), left) == if left == Some(1) then 4 else 2
    ensures Propagated(waits, Waiting(2, 3), left) == 2
    ensures Propagated(waits, Waiting(3, 4), left) == 0 && Propagated(waits, Waiting(5, 4), left) == 0
  {
    FanInShape(waits);
    DepthDecides(waits, ThreadId(2), ThreadId(3), ThreadId(4), W, 2, left, {ThreadId(1)});
    ThirdThread(waits, ThreadId(3), ThreadId(4), W, left, {ThreadId(2)});
    LeafOutcome(waits, ThreadId(4), W, left, {ThreadId(3)});
    LeafOutcome(waits, ThreadId(4), W, left, {ThreadId(5)});
  }

  lemma DelayAt(es: seq<Edge>, left: Option<nat>, i: nat, e: Edge, raw: nat, propagated: nat)
    requires i < |es| && es[i] == e && raw == e.weight.rawWaitMs
    requires propagated == Propagated(NormalWaits(es), e, left)
    ensures Redistribute(es, left)[i].weight.attributedDelayMs == SatSub(raw, propagated)
  {}

  lemma FanInDelays(es: seq<Edge>, left: Option<nat>, first: nat)
    requires NormalWaits(es) == NormalWaits(FanIn()) && |es| == 4 && left != Some(0)
    requires es[0] == Waiting(1, 2) && es[1] == Waiting(2, 3) && es[2] == Waiting(3, 4) && es[3] == Waiting(5, 4)
    requires first == (if left == Some(1) then 4 else 2)
    ensures |Redistribute(es, left)| == 4
    ensures Redistribute(es, left)[0].weight.attributedDelayMs == SatSub(4, first)
    ensures Redistribute(es, left)[1].weight.attributedDelayMs == SatSub(4, 2)
    ensures Redistribute(es, left)[2].weight.attributedDelayMs == SatSub(4, 0)
    ensures Redistribute(es, left)[3].weight.attributedDelayMs == SatSub(4, 0)
  {
    FanInPropagated(NormalWaits(es), left);
    DelayAt(es, left, 0, Waiting(1, 2), 4, first);
    DelayAt(es, left, 1, Waiting(2, 3), 4, 2);
    DelayAt(es, left, 2, Waiting(3, 4), 4, 0);
    DelayAt(es, left, 3, Waiting(5, 4), 4, 0);
  }

  lemma FanInAttribution(left: Option<nat>)
    requires left != Some(0)
    ensures TotalAttributed(Redistribute(FanIn(), left)) == if left == Some(1) then 10 else 12
  {
    var es := FanIn();
    FanInDelays(es, left, if left == Some(1) then 4 else 2);
    FourEdges(Redistribute(es, left));
  }

  /** With a second waiter on the last thread of a chain, every deeper run
      attributes more in total than the run at depth 2. */
  lemma FanInBreaksDepthMonotonicity(deep: nat)
    requires deep > 2
    ensures RawIsDuration(FanIn())
    ensures TotalAttributed(Redistribute(FanIn(), LevelsBelowEntry(2))) == 10
    ensures TotalAttributed(Redistribute(FanIn(), LevelsBelowEntry(deep))) == 12
  {
    FanInAttribution(LevelsBelowEntry(2));
    FanInAttribution(LevelsBelowEntry(deep));
  }
}
