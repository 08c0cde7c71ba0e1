/** Graphs on which no depth from 2 on matters (src/cascade/invariants.rs). */
module DepthAlone {
  import opened Collections
  import opened GraphTypes
  import opened Sweep
  import opened CascadeSpec
  import opened Attribution
  import opened DepthLaw
  import opened DepthExact

  /** Behind a wait of `from`, any thread that the waiting goes on to, other than
      back to its two ends, waits for one thread at a time, and alone. */
  ghost predicate AloneBehind(from: set<Wait>, waits: set<Wait>) {
    forall a, b | a in from && b in waits && a.dst == b.src && Overlap(a.window, b.window).Some?
                  && b.dst != a.src && b.dst != b.src ::
      Unshared(waits, b.dst)
  }

  ghost function AllWaits(es: seq<Edge>): set<Wait> {
    set e | e in es :: WaitOf(e)
  }

  /** The first hop may fan in and out; two hops behind an edge nothing does. */
  ghost predicate AloneBeyondFirstHop(es: seq<Edge>) {
    AloneBehind(AllWaits(es), NormalWaits(es))
  }

  /** `x` waits for `t` throughout `w`, and `t` is done with or waits alone. */
  ghost predicate Forwards(waits: set<Wait>, x: ThreadId, t: ThreadId, w: TimeWindow, path: set<ThreadId>) {
    && x in path && (t in path || Unshared(waits, t))
    && forall m | Contains(w, m) :: t in WaitedFor(waits, x, m)
  }

  ghost predicate ForwardsAlone(waits: set<Wait>, x: ThreadId, interval: ElementaryInterval, path: set<ThreadId>) {
    && |interval.targets| == 1
    && ConcurrentWaiters(waits, interval.targets[0], interval.window) == 1
    && Forwards(waits, x, interval.targets[0], interval.window, path)
  }

  lemma TargetsAreWaitedFor(waits: set<Wait>, x: ThreadId, w: TimeWindow, i: nat, j: nat)
    requires i < |Partition(waits, x, w)| && j < |Partition(waits, x, w)[i].targets|
    ensures var interval := Partition(waits, x, w)[i];
            && Duration(interval.window) > 0
            && forall m | Contains(interval.window, m) ::
                 Contains(w, m) && interval.targets[j] in WaitedFor(waits, x, m)
  {
    PartitionExact(waits, x, w);
    var interval := Partition(waits, x, w)[i];
    assert interval.targets[j] in interval.targets;
    forall m | Contains(interval.window, m) ensures Contains(w, m) && interval.targets[j] in WaitedFor(waits, x, m) {
      assert Contains(w, m);
      assert ExactAt(Partition(waits, x, w), m, WaitedFor(waits, x, m));
      SortedThreadsLists(WaitedFor(waits, x, m));
    }
  }

  /** What `t` waits for, while `x` waits for `t`, forwards all it takes. */
  lemma NextForwards(from: set<Wait>, waits: set<Wait>, x: ThreadId, t: ThreadId, w: TimeWindow,
                     i: nat, j: nat, path: set<ThreadId>)
    requires AloneBehind(from, waits) && x in path && t in path
    requires forall m | Contains(w, m) :: t in WaitedFor(from, x, m)
    requires i < |Partition(waits, t, w)| && j < |Partition(waits, t, w)[i].targets|
    ensures var interval := Partition(waits, t, w)[i];
            Forwards(waits, t, interval.targets[j], interval.window, path)
  {
    var interval := Partition(waits, t, w)[i];
    TargetsAreWaitedFor(waits, t, w, i, j);
    var m := interval.window.startMs;
    assert Contains(interval.window, m);
    var a := WaitAt(from, x, t, m);
    var b := WaitAt(waits, t, interval.targets[j], m);
    assert Contains(a.window, m) && Contains(b.window, m);
  }

  lemma AloneInterval(waits: set<Wait>, x: ThreadId, t: ThreadId, w: TimeWindow, i: nat, path: set<ThreadId>)
    requires AloneBehind(waits, waits) && Forwards(waits, x, t, w, path) && t !in path
    requires i < |Partition(waits, t, w)|
    ensures ForwardsAlone(waits, t, Partition(waits, t, w)[i], path + {t})
  {
    UnsharedInterval(waits, t, w, i);
    NextForwards(waits, waits, x, t, w, i, 0, path + {t});
  }

  lemma SpendOne(left: nat, below: nat)
    requires left == below + 1
    ensures Spend(Some(left)) == Some(below)
  {}

  /** Such a thread hands on or keeps every millisecond, whatever the limit. */
  lemma {:induction false} NothingLost(waits: set<Wait>, x: ThreadId, t: ThreadId, w: TimeWindow,
                                       left: nat, path: set<ThreadId>)
    requires AloneBehind(waits, waits) && Forwards(waits, x, t, w, path)
    ensures Absorbed(waits, t, w, Some(left), path) == Duration(w)
    decreases left, 2, 0
  {
    if left == 0 || t in path || Partition(waits, t, w) == [] {
      CascadeUnfolds(waits, t, w, Some(left), path);
    } else {
      var below: nat, intervals := left - 1, Partition(waits, t, w);
      SpendOne(left, below);
      Opened(waits, t, w, Some(left), Some(below), path, Cascade(waits, t, w, Some(left), path));
      forall i | 0 <= i < |intervals| ensures ForwardsAlone(waits, t, intervals[i], path + {t}) {
        AloneInterval(waits, x, t, w, i, path);
      }
      CoverageIsBusyTime(waits, t, w);
      NothingLostInAny(waits, t, intervals, below, path + {t});
    }
  }

  lemma {:induction false} NothingLostInAny(waits: set<Wait>, x: ThreadId, intervals: seq<ElementaryInterval>,
                                            left: nat, path: set<ThreadId>)
    requires AloneBehind(waits, waits)
    requires forall i | 0 <= i < |intervals| :: ForwardsAlone(waits, x, intervals[i], path)
    ensures SumIntervals(waits, intervals, Some(left), path) == Coverage(intervals)
    decreases left, 4, |intervals|
  {
    if intervals != [] {
      assert ForwardsAlone(waits, x, intervals[0], path);
      NothingLostInOne(waits, x, intervals[0], left, path);
      assert forall i | 0 <= i < |intervals[1..]| :: intervals[1..][i] == intervals[i + 1];
      NothingLostInAny(waits, x, intervals[1..], left, path);
    }
  }

  lemma {:induction false} NothingLostInOne(waits: set<Wait>, x: ThreadId, interval: ElementaryInterval,
                                            left: nat, path: set<ThreadId>)
    requires AloneBehind(waits, waits) && ForwardsAlone(waits, x, interval, path)
    ensures SumTargets(waits, interval.window, interval.targets, 1, Some(left), path) == Duration(interval.window)
    decreases left, 3, 0
  {
    var t := interval.targets[0];
    NothingLost(waits, x, t, interval.window, left, path);
    NoDivision(Cascade(waits, t, interval.window, Some(left), path));
    assert interval.targets[1..] == [];
    assert SumTargets(waits, interval.window, interval.targets[1..], 1, Some(left), path) == 0;
  }

  lemma AloneIsForgiven(es: seq<Edge>, k: nat, shallow: nat, deep: nat)
    requires AloneBeyondFirstHop(es) && k < |es|
    ensures EdgeForgiven(NormalWaits(es), es[k], shallow, deep)
  {
    var e, waits := es[k], NormalWaits(es);
    var intervals, path := Partition(waits, e.dst, e.weight.window), {e.src, e.dst};
    assert e in es && WaitOf(e) in AllWaits(es);
    forall a | a in waits ensures a in AllWaits(es) {
      var f :| f in es && f.weight.kind == Normal && WaitOf(f) == a;
    }
    forall m | Contains(e.weight.window, m) ensures e.dst in WaitedFor(AllWaits(es), e.src, m) {
      assert WaitOf(e).src == e.src && Contains(WaitOf(e).window, m);
    }
    forall i, j | 0 <= i < |intervals| && 0 <= j < |intervals[i].targets|
      ensures Forgiven(waits, intervals[i].window, intervals[i].targets[j], |intervals[i].targets|, shallow, deep, path)
    {
      NextForwards(AllWaits(es), waits, e.src, e.dst, e.weight.window, i, j, path);
      NothingLost(waits, e.dst, intervals[i].targets[j], intervals[i].window, shallow, path);
      NothingLost(waits, e.dst, intervals[i].targets[j], intervals[i].window, deep, path);
    }
  }

  /** If two hops behind an edge nobody shares, no depth from 2 on matters. */
  lemma AloneDepthIrrelevant(es: seq<Edge>, shallow: nat, deep: nat)
    requires RawIsDuration(es) && AloneBeyondFirstHop(es) && 2 <= shallow <= deep
    ensures Redistribute(es, LevelsBelowEntry(deep)) == Redistribute(es, LevelsBelowEntry(shallow))
  {
    var s: nat, d: nat := shallow - 2, deep - 2;
    LevelsBelow(shallow, s);
    LevelsBelow(deep, d);
    forall i | 0 <= i < |es| ensures EdgeForgiven(NormalWaits(es), es[i], s, d) {
      AloneIsForgiven(es, i, s, d);
    }
    assert EveryEdgeForgiven(es, s, d);
    EdgesUnchanged(es, LevelsBelowEntry(shallow), LevelsBelowEntry(deep), s, d);
  }

  /** Chains are such graphs. */
  lemma ChainsAreAlone(es: seq<Edge>)
    requires Chain(NormalWaits(es))
    ensures AloneBeyondFirstHop(es)
  {
    forall t ensures Unshared(NormalWaits(es), t) {}
  }
}
