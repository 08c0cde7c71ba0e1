/** Exactly when the depth check accepts (src/cascade/invariants.rs): what deeper
    recursion loses must vanish in a remainder that is discarded anyway. */
module DepthExact {
  import opened Collections
  import opened GraphTypes
  import opened Sweep
  import opened CascadeSpec
  import opened Attribution
  import opened DepthLaw

  // ---------- what rounding forgives ----------

  lemma SameQuotient(a: nat, b: nat, k: nat, qa: nat, ra: nat, qb: nat, rb: nat)
    requires a <= b && a == k * qa + ra && b == k * qb + rb && ra < k && rb < k
    ensures qa == qb <==> b - a <= rb
  {
    if b - a <= rb {
      DivisionUnique(qa, ra, k, qb, rb - (b - a));
    }
  }

  lemma DividedTwice(x: nat, n: nat, m: nat, k: nat)
    requires n > 0 && m > 0 && k > 0 && k == n * m
    ensures Quotient(Quotient(x, n), m) == Quotient(x, k)
  {
    var a, b := QuotientRemainder(x, n);
    var c, d := QuotientRemainder(a, m);
    var e, f := QuotientRemainder(x, k);
    var r := NestedRemainder(x, n, m, k, a, b, c, d);
    DivisionUnique(c, r, k, e, f);
  }

  lemma NestedRemainder(x: nat, n: nat, m: nat, k: nat, a: nat, b: nat, c: nat, d: nat) returns (r: nat)
    requires x == n * a + b && a == m * c + d && b < n && d < m && k == n * m
    ensures r < k && x == k * c + r
  {
    ProductAtLeast(n, m - d);
    assert n * m == n * d + n * (m - d);
    assert n * (m * c + d) == n * m * c + n * d;
    r := n * d + b;
  }

  /** Two dividing callers cannot tell `a` from `b` exactly when the difference
      is no larger than the remainder they discard anyway. */
  lemma SameShare(a: nat, b: nat, n: nat, m: nat)
    requires a <= b && n > 0 && m > 0
    ensures Times(n, m) > 0
    ensures Quotient(Quotient(a, n), m) == Quotient(Quotient(b, n), m) <==> b - a <= Remainder(b, Times(n, m))
  {
    TimesIsProduct(n, m);
    ProductAtLeast(n, m);
    var k := Times(n, m);
    DividedTwice(a, n, m, k);
    DividedTwice(b, n, m, k);
    var qa, ra := QuotientRemainder(a, k);
    var qb, rb := QuotientRemainder(b, k);
    SameQuotient(a, b, k, qa, ra, qb, rb);
  }

  lemma TransfersCompare(a: Outcome, b: Outcome, after: nat, before: nat, n: nat, m: nat)
    requires after == a.propagated + a.selfBlame && before == b.propagated + b.selfBlame
    requires after <= before && n > 0 && m > 0
    ensures Times(n, m) > 0 && Transfer(a, n, m) <= Transfer(b, n, m)
    ensures Transfer(a, n, m) == Transfer(b, n, m) <==> before - after <= Remainder(before, Times(n, m))
  {
    TransferMonotone(a, b, n, m);
    SameShare(after, before, n, m);
  }

  /** What is left over of `total` once it is divided among `share` targets and
      then by the number of waiters. */
  ghost function RoundedOff(total: nat, share: nat, external: nat): nat {
    if Times(share, external) == 0 then 0 else Remainder(total, Times(share, external))
  }

  // ---------- exactly when the depth check accepts ----------

  /** At the first hop: what target `t` loses by recursing deeper disappears in
      the rounding of the transfer. */
  ghost predicate Forgiven(waits: set<Wait>, w: TimeWindow, t: ThreadId, share: nat,
                           shallow: nat, deep: nat, path: set<ThreadId>)
  {
    var before, after := Absorbed(waits, t, w, Some(shallow), path), Absorbed(waits, t, w, Some(deep), path);
    before - after <= RoundedOff(before, share, ConcurrentWaiters(waits, t, w))
  }

  lemma TransferForgiven(waits: set<Wait>, w: TimeWindow, t: ThreadId, share: nat,
                         shallow: nat, deep: nat, path: set<ThreadId>)
    requires shallow <= deep && share > 0
    ensures var external := ConcurrentWaiters(waits, t, w);
            var a, b := Cascade(waits, t, w, Some(deep), path), Cascade(waits, t, w, Some(shallow), path);
            && Transfer(a, share, external) <= Transfer(b, share, external)
            && (Transfer(a, share, external) == Transfer(b, share, external)
                <==> Forgiven(waits, w, t, share, shallow, deep, path))
  {
    var external := ConcurrentWaiters(waits, t, w);
    var a, b := Cascade(waits, t, w, Some(deep), path), Cascade(waits, t, w, Some(shallow), path);
    DeeperAbsorbsLess(waits, t, w, shallow, deep, path);
    TransfersCompare(a, b, Absorbed(waits, t, w, Some(deep), path), Absorbed(waits, t, w, Some(shallow), path),
                     share, external);
  }

  /** Every one of `targets` is forgiven what it loses. */
  ghost predicate EachForgiven(waits: set<Wait>, w: TimeWindow, targets: seq<ThreadId>, share: nat,
                               shallow: nat, deep: nat, path: set<ThreadId>)
  {
    forall j | 0 <= j < |targets| :: Forgiven(waits, w, targets[j], share, shallow, deep, path)
  }

  lemma EachForgivenCons(waits: set<Wait>, w: TimeWindow, targets: seq<ThreadId>, share: nat,
                         shallow: nat, deep: nat, path: set<ThreadId>)
    requires targets != []
    ensures EachForgiven(waits, w, targets, share, shallow, deep, path) <==>
            && Forgiven(waits, w, targets[0], share, shallow, deep, path)
            && EachForgiven(waits, w, targets[1..], share, shallow, deep, path)
  {
    var rest := targets[1..];
    assert forall j | 0 < j < |targets| :: targets[j] == rest[j - 1];
    assert forall j | 0 <= j < |rest| :: rest[j] == targets[j + 1];
  }

  lemma {:induction false} TargetsForgiven(waits: set<Wait>, w: TimeWindow, targets: seq<ThreadId>, share: nat,
                                           shallow: nat, deep: nat, path: set<ThreadId>)
    requires shallow <= deep && (targets != [] ==> share > 0)
    ensures SumTargets(waits, w, targets, share, Some(deep), path)
         == SumTargets(waits, w, targets, share, Some(shallow), path)
       <==> EachForgiven(waits, w, targets, share, shallow, deep, path)
    decreases |targets|
  {
    if targets != [] {
      TransferForgiven(waits, w, targets[0], share, shallow, deep, path);
      TargetsShrink(waits, w, targets[1..], share, shallow, deep, path);
      TargetsForgiven(waits, w, targets[1..], share, shallow, deep, path);
      EachForgivenCons(waits, w, targets, share, shallow, deep, path);
    }
  }

  ghost predicate AllForgiven(waits: set<Wait>, intervals: seq<ElementaryInterval>,
                              shallow: nat, deep: nat, path: set<ThreadId>)
  {
    forall i | 0 <= i < |intervals| ::
      EachForgiven(waits, intervals[i].window, intervals[i].targets, |intervals[i].targets|, shallow, deep, path)
  }

  lemma AllForgivenCons(waits: set<Wait>, intervals: seq<ElementaryInterval>,
                        shallow: nat, deep: nat, path: set<ThreadId>)
    requires intervals != []
    ensures AllForgiven(waits, intervals, shallow, deep, path) <==>
            && EachForgiven(waits, intervals[0].window, intervals[0].targets, |intervals[0].targets|,
                            shallow, deep, path)
            && AllForgiven(waits, intervals[1..], shallow, deep, path)
  {
    var rest := intervals[1..];
    assert forall i | 0 < i < |intervals| :: intervals[i] == rest[i - 1];
    assert forall i | 0 <= i < |rest| :: rest[i] == intervals[i + 1];
  }

  lemma {:induction false} IntervalsForgiven(waits: set<Wait>, intervals: seq<ElementaryInterval>,
                                             shallow: nat, deep: nat, path: set<ThreadId>)
    requires shallow <= deep
    ensures SumIntervals(waits, intervals, Some(deep), path) == SumIntervals(waits, intervals, Some(shallow), path)
       <==> AllForgiven(waits, intervals, shallow, deep, path)
    decreases |intervals|
  {
    if intervals != [] {
      var first, rest := intervals[0], intervals[1..];
      TargetsForgiven(waits, first.window, first.targets, |first.targets|, shallow, deep, path);
      TargetsShrink(waits, first.window, first.targets, |first.targets|, shallow, deep, path);
      IntervalsShrink(waits, rest, shallow, deep, path);
      IntervalsForgiven(waits, rest, shallow, deep, path);
      AllForgivenCons(waits, intervals, shallow, deep, path);
    }
  }

  /** For an edge: everything that its destination's targets lose below the
      limits, with `shallow` and `deep` levels left at the targets, is forgiven. */
  ghost predicate EdgeForgiven(waits: set<Wait>, e: Edge, shallow: nat, deep: nat) {
    e.src == e.dst || AllForgiven(waits, Partition(waits, e.dst, e.weight.window), shallow, deep, {e.src, e.dst})
  }

  lemma PropagatedForgiven(waits: set<Wait>, e: Edge, shallow: nat, deep: nat)
    requires shallow <= deep
    ensures Propagated(waits, e, Some(deep + 1)) == Propagated(waits, e, Some(shallow + 1))
       <==> EdgeForgiven(waits, e, shallow, deep)
  {
    var node, w := e.dst, e.weight.window;
    if e.src == node || Partition(waits, node, w) == [] {
      Closed(waits, node, w, Some(shallow + 1), {e.src});
      Closed(waits, node, w, Some(deep + 1), {e.src});
    } else {
      var s: nat, d: nat := shallow + 1, deep + 1;
      Opened(waits, node, w, Some(s), Some(shallow), {e.src}, Cascade(waits, node, w, Some(s), {e.src}));
      Opened(waits, node, w, Some(d), Some(deep), {e.src}, Cascade(waits, node, w, Some(d), {e.src}));
      assert {e.src} + {node} == {e.src, node};
      IntervalsForgiven(waits, Partition(waits, node, w), shallow, deep, {e.src, node});
    }
  }

  lemma SameDelay(e: Edge, a: Edge, b: Edge, pa: nat, pb: nat)
    requires a == WithDelay(e, a.weight.attributedDelayMs) && b == WithDelay(e, b.weight.attributedDelayMs)
    requires a.weight.attributedDelayMs + pa == e.weight.rawWaitMs == b.weight.attributedDelayMs + pb
    ensures a == b <==> pa == pb
  {}

  lemma LevelsBelow(depth: nat, levels: nat)
    requires depth == levels + 2
    ensures LevelsBelowEntry(depth) == Some(levels + 1)
  {}

  lemma EdgeUnchanged(es: seq<Edge>, a: Option<nat>, b: Option<nat>, shallow: nat, deep: nat, i: nat)
    requires RawIsDuration(es) && shallow <= deep && i < |es| && a == Some(shallow + 1) && b == Some(deep + 1)
    ensures Redistribute(es, a)[i] == Redistribute(es, b)[i]
       <==> EdgeForgiven(NormalWaits(es), es[i], shallow, deep)
  {
    var waits := NormalWaits(es);
    PropagatedForgiven(waits, es[i], shallow, deep);
    EdgeLedger(es, a, i);
    EdgeLedger(es, b, i);
    SameDelay(es[i], Redistribute(es, a)[i], Redistribute(es, b)[i],
              Propagated(waits, es[i], a), Propagated(waits, es[i], b));
  }

  ghost predicate EveryEdgeForgiven(es: seq<Edge>, shallow: nat, deep: nat) {
    forall i | 0 <= i < |es| :: EdgeForgiven(NormalWaits(es), es[i], shallow, deep)
  }

  lemma EdgesUnchanged(es: seq<Edge>, a: Option<nat>, b: Option<nat>, shallow: nat, deep: nat)
    requires RawIsDuration(es) && shallow <= deep && a == Some(shallow + 1) && b == Some(deep + 1)
    ensures Redistribute(es, a) == Redistribute(es, b)
       <==> EveryEdgeForgiven(es, shallow, deep)
  {
    forall i | 0 <= i < |es|
      ensures Redistribute(es, a)[i] == Redistribute(es, b)[i]
         <==> EdgeForgiven(NormalWaits(es), es[i], shallow, deep)
    {
      EdgeUnchanged(es, a, b, shallow, deep, i);
    }
  }

  /** The depth check accepts exactly when, on every edge, what the threads two
      hops on lose to deeper recursion stays within the remainder that the first
      hop rounds off. They have `s` and `d` levels left in the two runs. */
  lemma DepthCheckExact(es: seq<Edge>, shallow: nat, deep: nat, s: nat, d: nat)
    requires RawIsDuration(es) && shallow == s + 2 && deep == d + 2 && shallow <= deep
    ensures TotalAttributed(Redistribute(es, LevelsBelowEntry(deep)))
         <= TotalAttributed(Redistribute(es, LevelsBelowEntry(shallow)))
       <==> EveryEdgeForgiven(es, s, d)
  {
    LevelsBelow(shallow, s);
    LevelsBelow(deep, d);
    EdgesUnchanged(es, LevelsBelowEntry(shallow), LevelsBelowEntry(deep), s, d);
    DepthCheckAccepts(es, shallow, deep);
  }

  // ---------- one more level, read off the waits ----------

  /** What the targets of one interval hand on when each is cut off at once. */
  ghost function FlatTargets(waits: set<Wait>, w: TimeWindow, targets: seq<ThreadId>, share: nat): nat {
    if targets == [] then 0
    else
      Quotient(Quotient(Duration(w), AtLeastOne(share)), ConcurrentWaiters(waits, targets[0], w))
      + FlatTargets(waits, w, targets[1..], share)
  }

  ghost function FlatIntervals(waits: set<Wait>, intervals: seq<ElementaryInterval>): nat {
    if intervals == [] then 0
    else
      FlatTargets(waits, intervals[0].window, intervals[0].targets, |intervals[0].targets|)
      + FlatIntervals(waits, intervals[1..])
  }

  /** What a thread absorbs with one level left: no recursion is needed. */
  ghost function OneLevel(waits: set<Wait>, t: ThreadId, w: TimeWindow, path: set<ThreadId>): nat {
    var intervals := Partition(waits, t, w);
    if t in path then Duration(w)
    else FlatIntervals(waits, intervals) + SatSub(Duration(w), Coverage(intervals))
  }

  lemma {:induction false} FlatTargetsSum(waits: set<Wait>, w: TimeWindow, targets: seq<ThreadId>, share: nat,
                                          path: set<ThreadId>)
    ensures SumTargets(waits, w, targets, share, Some(0), path) == FlatTargets(waits, w, targets, share)
    decreases |targets|
  {
    if targets != [] {
      CascadeUnfolds(waits, targets[0], w, Some(0), path);
      FlatTargetsSum(waits, w, targets[1..], share, path);
    }
  }

  lemma {:induction false} FlatIntervalsSum(waits: set<Wait>, intervals: seq<ElementaryInterval>, path: set<ThreadId>)
    ensures SumIntervals(waits, intervals, Some(0), path) == FlatIntervals(waits, intervals)
    decreases |intervals|
  {
    if intervals != [] {
      FlatTargetsSum(waits, intervals[0].window, intervals[0].targets, |intervals[0].targets|, path);
      FlatIntervalsSum(waits, intervals[1..], path);
    }
  }

  lemma OneLevelAbsorbs(waits: set<Wait>, t: ThreadId, w: TimeWindow, path: set<ThreadId>)
    ensures Absorbed(waits, t, w, Some(1), path) == OneLevel(waits, t, w, path)
  {
    if t in path || Partition(waits, t, w) == [] {
      Closed(waits, t, w, Some(1), path);
    } else {
      Opened(waits, t, w, Some(1), Some(0), path, Cascade(waits, t, w, Some(1), path));
      FlatIntervalsSum(waits, Partition(waits, t, w), path + {t});
    }
  }

  ghost predicate FlatForgiven(waits: set<Wait>, w: TimeWindow, t: ThreadId, share: nat, path: set<ThreadId>) {
    Duration(w) - OneLevel(waits, t, w, path) <= RoundedOff(Duration(w), share, ConcurrentWaiters(waits, t, w))
  }

  /** Decided by the waits alone: the loss that one more level makes visible two
      hops behind an edge is rounded off at the first hop. */
  ghost predicate EdgeFlatForgiven(waits: set<Wait>, e: Edge) {
    var intervals := Partition(waits, e.dst, e.weight.window);
    e.src == e.dst ||
    forall i, j | 0 <= i < |intervals| && 0 <= j < |intervals[i].targets| ::
      FlatForgiven(waits, intervals[i].window, intervals[i].targets[j], |intervals[i].targets|, {e.src, e.dst})
  }

  lemma FlatIsForgiven(waits: set<Wait>, w: TimeWindow, t: ThreadId, share: nat, path: set<ThreadId>)
    ensures FlatForgiven(waits, w, t, share, path) <==> Forgiven(waits, w, t, share, 0, 1, path)
  {
    NothingLeft(waits, t, w, 0, path);
    CascadeUnfolds(waits, t, w, Some(0), path);
    OneLevelAbsorbs(waits, t, w, path);
  }

  lemma EdgeFlatIsForgiven(waits: set<Wait>, e: Edge)
    ensures EdgeFlatForgiven(waits, e) <==> EdgeForgiven(waits, e, 0, 1)
  {
    var intervals, path := Partition(waits, e.dst, e.weight.window), {e.src, e.dst};
    forall i, j | 0 <= i < |intervals| && 0 <= j < |intervals[i].targets|
      ensures FlatForgiven(waits, intervals[i].window, intervals[i].targets[j], |intervals[i].targets|, path)
         <==> Forgiven(waits, intervals[i].window, intervals[i].targets[j], |intervals[i].targets|, 0, 1, path)
    {
      FlatIsForgiven(waits, intervals[i].window, intervals[i].targets[j], |intervals[i].targets|, path);
    }
  }

  lemma TotalsRise(es: seq<Edge>, shallow: nat, deep: nat)
    requires 2 <= shallow <= deep
    ensures TotalAttributed(Redistribute(es, LevelsBelowEntry(shallow)))
         <= TotalAttributed(Redistribute(es, LevelsBelowEntry(deep)))
  {
    var a, b := Redistribute(es, LevelsBelowEntry(shallow)), Redistribute(es, LevelsBelowEntry(deep));
    forall i | 0 <= i < |es| ensures a[i].weight.attributedDelayMs <= b[i].weight.attributedDelayMs {
      DeeperNeverAttributesLess(es, shallow, deep, i);
    }
    TotalAttributedMonotone(a, b);
  }

  lemma FlatIsExact(es: seq<Edge>)
    ensures EveryEdgeForgiven(es, 0, 1) <==> forall i | 0 <= i < |es| :: EdgeFlatForgiven(NormalWaits(es), es[i])
  {
    forall i | 0 <= i < |es|
      ensures EdgeFlatForgiven(NormalWaits(es), es[i]) <==> EdgeForgiven(NormalWaits(es), es[i], 0, 1)
    {
      EdgeFlatIsForgiven(NormalWaits(es), es[i]);
    }
  }

  /** Depth 3 against depth 2 is decided by a condition on the waits alone. */
  lemma DepthThreeFromWaits(es: seq<Edge>)
    requires RawIsDuration(es)
    ensures TotalAttributed(Redistribute(es, LevelsBelowEntry(3)))
         <= TotalAttributed(Redistribute(es, LevelsBelowEntry(2)))
       <==> forall i | 0 <= i < |es| :: EdgeFlatForgiven(NormalWaits(es), es[i])
  {
    DepthCheckExact(es, 2, 3, 0, 1);
    FlatIsExact(es);
  }

  /** The same condition is necessary for every deeper run. */
  lemma DeeperNeedsWaits(es: seq<Edge>, deep: nat)
    requires RawIsDuration(es) && deep >= 3
    requires TotalAttributed(Redistribute(es, LevelsBelowEntry(deep)))
          <= TotalAttributed(Redistribute(es, LevelsBelowEntry(2)))
    ensures forall i | 0 <= i < |es| :: EdgeFlatForgiven(NormalWaits(es), es[i])
  {
    TotalsRise(es, 3, deep);
    DepthThreeFromWaits(es);
  }
}
