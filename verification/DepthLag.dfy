/** A loss that shows one level late: what can be read off the waits for depth 3
    does not decide deeper runs (src/cascade/invariants.rs). */
module DepthLag {
  import opened Collections
  import opened GraphTypes
  import opened Sweep
  import opened CascadeSpec
  import opened Attribution
  import opened DepthLimit
  import opened DepthExact

  const LONG: TimeWindow := Span(0, 2)
  const SHORT: TimeWindow := Span(0, 1)

  /** A chain 1, 2, 3, 4 that ends in two threads; its first wait is too short to
      be halved. */
  function Forked(): seq<Edge> {
    [Over(1, 2, SHORT), Over(2, 3, LONG), Over(3, 4, LONG), Over(4, 5, LONG), Over(4, 6, LONG)]
  }

  ghost predicate IsForked(waits: set<Wait>) {
    waits == {Wait(ThreadId(1), ThreadId(2), SHORT), Wait(ThreadId(2), ThreadId(3), LONG),
              Wait(ThreadId(3), ThreadId(4), LONG), Wait(ThreadId(4), ThreadId(5), LONG),
              Wait(ThreadId(4), ThreadId(6), LONG)}
  }

  lemma ForkedWaits()
    ensures IsForked(NormalWaits(Forked()))
  {
    var es, waits := Forked(), NormalWaits(Forked());
    assert es[0] in es && es[1] in es && es[2] in es && es[3] in es && es[4] in es;
    assert WaitOf(es[0]) in waits && WaitOf(es[1]) in waits && WaitOf(es[2]) in waits;
    assert WaitOf(es[3]) in waits && WaitOf(es[4]) in waits;
  }

  lemma OverlapOf(w: TimeWindow)
    requires w == LONG || w == SHORT
    ensures Overlap(w, LONG) == Some(w) && Overlap(LONG, w) == Some(w)
  {}

  /** Threads 2 and 3 wait for the next one throughout, thread 4 for both ends. */
  lemma ForkedSteady(waits: set<Wait>, w: TimeWindow)
    requires IsForked(waits) && (w == LONG || w == SHORT)
    ensures Steady(waits, ThreadId(2), {ThreadId(3)}, w)
    ensures Steady(waits, ThreadId(3), {ThreadId(4)}, w)
    ensures Steady(waits, ThreadId(4), {ThreadId(5), ThreadId(6)}, w)
  {
    OverlapOf(w);
    var a, b := Wait(ThreadId(2), ThreadId(3), LONG), Wait(ThreadId(3), ThreadId(4), LONG);
    var c, d := Wait(ThreadId(4), ThreadId(5), LONG), Wait(ThreadId(4), ThreadId(6), LONG);
    assert a in waits && b in waits && c in waits && d in waits;
  }

  lemma OnlyWaiter(waits: set<Wait>, src: int, dst: int, w: TimeWindow)
    requires IsForked(waits) && (w == LONG || w == SHORT)
    requires Wait(ThreadId(src), ThreadId(dst), LONG) in waits
    ensures ConcurrentWaiters(waits, ThreadId(dst), w) == 1
  {
    OverlapOf(w);
    var e := Wait(ThreadId(src), ThreadId(dst), LONG);
    assert e in waits && e.src in Waiters(waits, ThreadId(dst), w);
    assert Waiters(waits, ThreadId(dst), w) == {ThreadId(src)};
  }

  lemma EndOutcome(waits: set<Wait>, t: int, w: TimeWindow, left: Option<nat>, path: set<ThreadId>)
    requires IsForked(waits) && (t == 5 || t == 6)
    ensures Cascade(waits, ThreadId(t), w, left, path) == Outcome(0, Duration(w))
  {
    LeafOutcome(waits, ThreadId(t), w, left, path);
  }

  lemma BothEnds()
    ensures SortedThreads({ThreadId(5), ThreadId(6)}) == [ThreadId(5), ThreadId(6)]
  {
    SortedThreadsLists({ThreadId(5), ThreadId(6)});
    AscendingUnique(SortedThreads({ThreadId(5), ThreadId(6)}), [ThreadId(5), ThreadId(6)]);
  }

  lemma EndTransfer(waits: set<Wait>, t: int, w: TimeWindow, left: Option<nat>, path: set<ThreadId>)
    requires IsForked(waits) && (w == LONG || w == SHORT) && (t == 5 || t == 6)
    ensures Transfer(Cascade(waits, ThreadId(t), w, left, path), 2, ConcurrentWaiters(waits, ThreadId(t), w))
         == if w == LONG then 1 else 0
  {
    EndOutcome(waits, t, w, left, path);
    OnlyWaiter(waits, 4, t, w);
    DivideByOne(Quotient(Duration(w), 2));
  }

  lemma ForkSum(waits: set<Wait>, w: TimeWindow, left: Option<nat>, path: set<ThreadId>)
    requires IsForked(waits) && (w == LONG || w == SHORT)
    ensures SumTargets(waits, w, [ThreadId(5), ThreadId(6)], 2, left, path) == if w == LONG then 2 else 0
  {
    var both := [ThreadId(5), ThreadId(6)];
    var one := both[1..];
    EndTransfer(waits, 5, w, left, path);
    EndTransfer(waits, 6, w, left, path);
    assert one == [ThreadId(6)] && one[1..] == [];
    assert SumTargets(waits, w, one[1..], 2, left, path) == 0;
  }

  lemma SingleInterval(waits: set<Wait>, w: TimeWindow, targets: seq<ThreadId>, left: Option<nat>, path: set<ThreadId>)
    ensures var intervals := [ElementaryInterval(w, targets)];
            && Coverage(intervals) == Duration(w)
            && SumIntervals(waits, intervals, left, path) == SumTargets(waits, w, targets, |targets|, left, path)
  {
    var intervals := [ElementaryInterval(w, targets)];
    assert intervals[1..] == [];
    assert SumIntervals(waits, intervals[1..], left, path) == 0;
  }

  /** Thread 4 halves what it takes: nothing is lost of 2 ms, all of 1 ms. */
  lemma ForkOutcome(waits: set<Wait>, w: TimeWindow, left: Option<nat>, path: set<ThreadId>)
    requires IsForked(waits) && (w == LONG || w == SHORT) && left != Some(0) && ThreadId(4) !in path
    ensures Cascade(waits, ThreadId(4), w, left, path) == Outcome(if w == LONG then 2 else 0, 0)
  {
    var targets := [ThreadId(5), ThreadId(6)];
    ForkedSteady(waits, w);
    SteadyPartition(waits, ThreadId(4), {ThreadId(5), ThreadId(6)}, w);
    BothEnds();
    CascadeUnfolds(waits, ThreadId(4), w, left, path);
    SingleInterval(waits, w, targets, Spend(left), path + {ThreadId(4)});
    ForkSum(waits, w, Spend(left), path + {ThreadId(4)});
  }

  /** What a thread of the chain hands on: the loss shows once thread 4 recurses. */
  ghost function HandedOn(w: TimeWindow, atFork: bool): nat {
    if atFork && w == SHORT then 0 else Duration(w)
  }

  /** One thread of the chain, given the next one's outcome. */
  lemma PassesOn(waits: set<Wait>, node: int, next: int, w: TimeWindow, left: Option<nat>, path: set<ThreadId>,
                 amount: nat)
    requires IsForked(waits) && (w == LONG || w == SHORT) && left != Some(0)
    requires (node == 2 && next == 3) || (node == 3 && next == 4)
    requires ThreadId(node) !in path
    requires var child := Cascade(waits, ThreadId(next), w, Spend(left), path + {ThreadId(node)});
             child.propagated + child.selfBlame == amount
    ensures Cascade(waits, ThreadId(node), w, left, path) == Outcome(amount, 0)
  {
    ForkedSteady(waits, w);
    OnlyWaiter(waits, node, next, w);
    LoneTransfer(waits, ThreadId(node), ThreadId(next), w, left, path,
                 Cascade(waits, ThreadId(next), w, Spend(left), path + {ThreadId(node)}), amount);
    DivideByOne(amount);
  }

  lemma ThirdOutcome(waits: set<Wait>, w: TimeWindow, left: Option<nat>, path: set<ThreadId>)
    requires IsForked(waits) && (w == LONG || w == SHORT) && left != Some(0)
    requires ThreadId(3) !in path && ThreadId(4) !in path
    ensures Cascade(waits, ThreadId(3), w, left, path) == Outcome(HandedOn(w, left != Some(1)), 0)
  {
    if left == Some(1) {
      CascadeUnfolds(waits, ThreadId(4), w, Spend(left), path + {ThreadId(3)});
    } else {
      ForkOutcome(waits, w, Spend(left), path + {ThreadId(3)});
    }
    PassesOn(waits, 3, 4, w, left, path, HandedOn(w, left != Some(1)));
  }

  lemma SecondOutcome(waits: set<Wait>, w: TimeWindow, left: Option<nat>, path: set<ThreadId>)
    requires IsForked(waits) && (w == LONG || w == SHORT) && left != Some(0) && path == {ThreadId(1)}
    ensures Cascade(waits, ThreadId(2), w, left, path)
         == Outcome(HandedOn(w, left != Some(1) && left != Some(2)), 0)
  {
    if left == Some(1) {
      CascadeUnfolds(waits, ThreadId(3), w, Spend(left), path + {ThreadId(2)});
    } else {
      ThirdOutcome(waits, w, Spend(left), path + {ThreadId(2)});
    }
    PassesOn(waits, 2, 3, w, left, path, HandedOn(w, left != Some(1) && left != Some(2)));
  }

  lemma ForkedPropagated(waits: set<Wait>, left: Option<nat>)
    requires IsForked(waits) && left != Some(0)
    ensures Propagated(waits, Over(1, 2, SHORT), left) == if left == Some(1) || left == Some(2) then 1 else 0
    ensures Propagated(waits, Over(2, 3, LONG), left) == 2 && Propagated(waits, Over(3, 4, LONG), left) == 2
    ensures Propagated(waits, Over(4, 5, LONG), left) == 0 && Propagated(waits, Over(4, 6, LONG), left) == 0
  {
    SecondOutcome(waits, SHORT, left, {ThreadId(1)});
    ThirdOutcome(waits, LONG, left, {ThreadId(2)});
    ForkOutcome(waits, LONG, left, {ThreadId(3)});
    EndOutcome(waits, 5, LONG, left, {ThreadId(4)});
    EndOutcome(waits, 6, LONG, left, {ThreadId(4)});
  }

  lemma FiveEdges(es: seq<Edge>)
    requires |es| == 5
    ensures TotalAttributed(es)
         == es[0].weight.attributedDelayMs + es[1].weight.attributedDelayMs + es[2].weight.attributedDelayMs
            + es[3].weight.attributedDelayMs + es[4].weight.attributedDelayMs
  {
    FourEdges(es[1..]);
  }

  lemma ChainDelays(es: seq<Edge>, left: Option<nat>, first: nat)
    requires IsForked(NormalWaits(es)) && |es| == 5 && left != Some(0)
    requires es[0] == Over(1, 2, SHORT) && es[1] == Over(2, 3, LONG) && es[2] == Over(3, 4, LONG)
    requires first == if left == Some(1) || left == Some(2) then 1 else 0
    ensures |Redistribute(es, left)| == 5
    ensures Redistribute(es, left)[0].weight.attributedDelayMs == SatSub(1, first)
    ensures Redistribute(es, left)[1].weight.attributedDelayMs == SatSub(2, 2)
    ensures Redistribute(es, left)[2].weight.attributedDelayMs == SatSub(2, 2)
  {
    ForkedPropagated(NormalWaits(es), left);
    DelayAt(es, left, 0, Over(1, 2, SHORT), 1, first);
    DelayAt(es, left, 1, Over(2, 3, LONG), 2, 2);
    DelayAt(es, left, 2, Over(3, 4, LONG), 2, 2);
  }

  lemma EndDelays(es: seq<Edge>, left: Option<nat>)
    requires IsForked(NormalWaits(es)) && |es| == 5 && left != Some(0)
    requires es[3] == Over(4, 5, LONG) && es[4] == Over(4, 6, LONG)
    ensures |Redistribute(es, left)| == 5
    ensures Redistribute(es, left)[3].weight.attributedDelayMs == SatSub(2, 0)
    ensures Redistribute(es, left)[4].weight.attributedDelayMs == SatSub(2, 0)
  {
    ForkedPropagated(NormalWaits(es), left);
    DelayAt(es, left, 3, Over(4, 5, LONG), 2, 0);
    DelayAt(es, left, 4, Over(4, 6, LONG), 2, 0);
  }

  lemma ForkedTotal(left: Option<nat>)
    requires left != Some(0)
    ensures TotalAttributed(Redistribute(Forked(), left)) == if left == Some(1) || left == Some(2) then 4 else 5
  {
    var es := Forked();
    ForkedWaits();
    ChainDelays(es, left, if left == Some(1) || left == Some(2) then 1 else 0);
    EndDelays(es, left);
    FiveEdges(Redistribute(es, left));
  }

  /** The condition on the waits is not sufficient beyond depth 3: here depth 3
      changes nothing, every deeper run does. */
  lemma WaitsDoNotDecideDeeper(deep: nat)
    requires deep >= 4
    ensures RawIsDuration(Forked())
    ensures forall i | 0 <= i < |Forked()| :: EdgeFlatForgiven(NormalWaits(Forked()), Forked()[i])
    ensures TotalAttributed(Redistribute(Forked(), LevelsBelowEntry(2))) == 4
    ensures TotalAttributed(Redistribute(Forked(), LevelsBelowEntry(3))) == 4
    ensures TotalAttributed(Redistribute(Forked(), LevelsBelowEntry(deep))) == 5
  {
    ForkedTotal(LevelsBelowEntry(2));
    ForkedTotal(LevelsBelowEntry(3));
    ForkedTotal(LevelsBelowEntry(deep));
    DepthThreeFromWaits(Forked());
  }
}
