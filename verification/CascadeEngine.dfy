/** The cascade engine (src/cascade/engine.rs) and its postcondition checks
    (src/cascade/invariants.rs). */
module CascadeEngine {
  import opened Collections
  import opened GraphTypes
  import opened Sweep
  import opened CascadeSpec
  import opened Attribution
  import opened CascadeReference
  import opened EdgeOrder
  import opened WaitGraph
  import opened SweepLine

  const DEFAULT_MAX_DEPTH: nat := 10

  /** The shared `&mut BTreeSet<ThreadId>` that every recursive call edits. */
  class PathSet {
    var members: set<ThreadId>

    constructor (first: ThreadId)
      ensures members == {first}
    {
      members := {first};
    }

    method Insert(t: ThreadId)
      modifies this
      ensures members == old(members) + {t}
    {
      members := members + {t};
    }

    method Remove(t: ThreadId)
      modifies this
      ensures members == old(members) - {t}
    {
      members := members - {t};
    }
  }

  ghost predicate CountsAsWaiter(e: Edge, w: TimeWindow) {
    e.weight.kind == Normal && Overlap(e.weight.window, w).Some?
  }

  ghost function WaitersOfRows(rows: seq<Row>, w: TimeWindow): set<ThreadId> {
    set r | r in rows && CountsAsWaiter(r.edge, w) :: r.edge.src
  }

  lemma WaitersOfRowsSnoc(rows: seq<Row>, w: TimeWindow, i: nat)
    requires i < |rows|
    ensures WaitersOfRows(rows[..i + 1], w)
         == WaitersOfRows(rows[..i], w) + if CountsAsWaiter(rows[i].edge, w) then {rows[i].edge.src} else {}
  {
    assert rows[..i + 1] == rows[..i] + [rows[i]];
  }

  lemma RowsAreWaiters(es: seq<Edge>, rows: seq<Row>, target: ThreadId, w: TimeWindow)
    requires forall r :: r in rows <==> r.index < |es| && r.edge == es[r.index] && r.edge.dst == target
    ensures WaitersOfRows(rows, w) == Waiters(NormalWaits(es), target, w)
  {
    var waits := NormalWaits(es);
    forall t ensures t in WaitersOfRows(rows, w) <==> t in Waiters(waits, target, w) {
      if t in Waiters(waits, target, w) {
        var x :| x in waits && x.dst == target && Overlap(x.window, w).Some? && x.src == t;
        var e :| e in es && e.weight.kind == Normal && WaitOf(e) == x;
        var i :| 0 <= i < |es| && es[i] == e;
        assert Row(i, e) in rows && CountsAsWaiter(Row(i, e).edge, w);
      }
      if t in WaitersOfRows(rows, w) {
        var r :| r in rows && CountsAsWaiter(r.edge, w) && r.edge.src == t;
        assert WaitOf(r.edge) in waits;
      }
    }
  }

  method CountConcurrentWaiters(graph: WaitForGraph, target: ThreadId, w: TimeWindow) returns (count: nat)
    requires graph.Valid()
    ensures count == ConcurrentWaiters(NormalWaits(graph.Edges()), target, w) > 0
    ensures count == Divisor(graph.Edges(), target, w)
  {
    WaitersAreCounted(graph.Edges(), target, w);
    var index := graph.NodeIndex(target);
    if index.None? {
      RowsAreWaiters(graph.Edges(), [], target, w);
      return 1;
    }
    var rows := graph.IncomingEdges(index.value, |graph.edges|);
    var waiters: set<ThreadId> := {};
    for i := 0 to |rows|
      invariant waiters == WaitersOfRows(rows[..i], w)
    {
      WaitersOfRowsSnoc(rows, w, i);
      var e := rows[i].edge;
      if e.weight.kind == Normal {
        if Overlap(e.weight.window, w).Some? {
          waiters := waiters + {e.src};
        }
      }
    }
    assert rows[..|rows|] == rows;
    RowsAreWaiters(graph.Edges(), rows, target, w);
    count := if |waiters| == 0 then 1 else |waiters|;
  }

  /** `child_absorbed / scale_target / scale_external`. */
  method ScaleTransfer(propDown: nat, childBlame: nat, targetCount: nat, external: nat) returns (transfer: nat)
    ensures transfer == Transfer(Outcome(propDown, childBlame), targetCount, external)
  {
    var childAbsorbed := propDown + childBlame;
    var scaleTarget, scaleExternal := AtLeastOne(targetCount), AtLeastOne(external);
    QuotientIsDivision(childAbsorbed, scaleTarget);
    QuotientIsDivision(Quotient(childAbsorbed, scaleTarget), scaleExternal);
    transfer := childAbsorbed / scaleTarget / scaleExternal;
  }

  lemma SumTargetsStep(waits: set<Wait>, w: TimeWindow, targets: seq<ThreadId>, j: nat,
                       left: Option<nat>, path: set<ThreadId>)
    requires j < |targets|
    ensures SumTargets(waits, w, targets[j..], |targets|, left, path)
         == Transfer(Cascade(waits, targets[j], w, left, path), |targets|, ConcurrentWaiters(waits, targets[j], w))
            + SumTargets(waits, w, targets[j + 1..], |targets|, left, path)
  {
    assert targets[j..][0] == targets[j] && targets[j..][1..] == targets[j + 1..];
  }

  lemma SumIntervalsStep(waits: set<Wait>, intervals: seq<ElementaryInterval>, i: nat,
                         left: Option<nat>, path: set<ThreadId>)
    requires i < |intervals|
    ensures Coverage(intervals[i..]) == Duration(intervals[i].window) + Coverage(intervals[i + 1..])
    ensures SumIntervals(waits, intervals[i..], left, path)
         == SumTargets(waits, intervals[i].window, intervals[i].targets, |intervals[i].targets|, left, path)
            + SumIntervals(waits, intervals[i + 1..], left, path)
  {
    assert intervals[i..][0] == intervals[i] && intervals[i..][1..] == intervals[i + 1..];
  }

  /** The inner loop of `compute_cascade`: all targets of one interval. */
  method TransferToTargets(graph: WaitForGraph, interval: ElementaryInterval,
                           depth: nat, maxDepth: nat, path: PathSet) returns (transferred: nat)
    requires graph.Valid() && depth < maxDepth && |path.members| == depth + 1
    modifies path
    ensures path.members == old(path.members) && |path.members| == depth + 1
    ensures transferred == SumTargets(NormalWaits(graph.Edges()), interval.window, interval.targets,
                                      |interval.targets|, Some(SatSub(maxDepth, depth + 1)), old(path.members))
    decreases maxDepth - depth, 0
  {
    ghost var waits, left := NormalWaits(graph.Edges()), Some(SatSub(maxDepth, depth + 1));
    ghost var onPath := path.members;
    var targets := interval.targets;
    transferred := 0;
    for j := 0 to |targets|
      invariant path.members == onPath
      invariant transferred + SumTargets(waits, interval.window, targets[j..], |targets|, left, onPath)
             == SumTargets(waits, interval.window, targets, |targets|, left, onPath)
    {
      SumTargetsStep(waits, interval.window, targets, j, left, onPath);
      var propDown, childBlame :=
        ComputeCascade(graph, targets[j], interval.window, depth + 1, maxDepth, path);
      var external := CountConcurrentWaiters(graph, targets[j], interval.window);
      var transfer := ScaleTransfer(propDown, childBlame, |targets|, external);
      transferred := transferred + transfer;
    }
  }

  /** The outer loop of `compute_cascade`: all intervals. */
  method TransferAll(graph: WaitForGraph, intervals: seq<ElementaryInterval>,
                     depth: nat, maxDepth: nat, path: PathSet)
    returns (totalPropagated: nat, coverage: nat)
    requires graph.Valid() && depth < maxDepth && |path.members| == depth + 1
    modifies path
    ensures path.members == old(path.members) && |path.members| == depth + 1
    ensures coverage == Coverage(intervals)
    ensures totalPropagated == SumIntervals(NormalWaits(graph.Edges()), intervals,
                                            Some(SatSub(maxDepth, depth + 1)), old(path.members))
    decreases maxDepth - depth, 1
  {
    ghost var waits, left := NormalWaits(graph.Edges()), Some(SatSub(maxDepth, depth + 1));
    ghost var onPath := path.members;
    totalPropagated, coverage := 0, 0;
    for i := 0 to |intervals|
      invariant path.members == onPath
      invariant coverage + Coverage(intervals[i..]) == Coverage(intervals)
      invariant totalPropagated + SumIntervals(waits, intervals[i..], left, onPath)
             == SumIntervals(waits, intervals, left, onPath)
    {
      SumIntervalsStep(waits, intervals, i, left, onPath);
      coverage := coverage + Duration(intervals[i].window);
      var transferred := TransferToTargets(graph, intervals[i], depth, maxDepth, path);
      totalPropagated := totalPropagated + transferred;
    }
  }

  /** Recursive redistribution. The path set is edited in place and handed back
      unchanged; at depth `depth` it has exactly `depth` members, so a path never
      visits a thread twice and the depth counts the threads on it. */
  method ComputeCascade(graph: WaitForGraph, current: ThreadId, w: TimeWindow,
                        depth: nat, maxDepth: nat, path: PathSet)
    returns (totalPropagated: nat, selfBlame: nat)
    requires graph.Valid() && |path.members| == depth
    modifies path
    ensures path.members == old(path.members) && |path.members| == depth
    ensures Outcome(totalPropagated, selfBlame)
         == Cascade(NormalWaits(graph.Edges()), current, w, Some(SatSub(maxDepth, depth)), old(path.members))
    decreases SatSub(maxDepth, depth), 2
  {
    ghost var waits, was := NormalWaits(graph.Edges()), path.members;
    CascadeUnfolds(waits, current, w, Some(SatSub(maxDepth, depth)), was);
    if depth >= maxDepth || current in path.members {
      return 0, Duration(w);
    }
    var intervals := SweepLinePartition(graph, current, w);
    if intervals == [] {
      return 0, Duration(w);
    }
    CascadeEnters(waits, current, w, depth, maxDepth, was);
    path.Insert(current);
    var coverage;
    totalPropagated, coverage := TransferAll(graph, intervals, depth, maxDepth, path);
    path.Remove(current);
    assert path.members == was && NormalWaits(graph.Edges()) == waits;
    selfBlame := SatSub(Duration(w), coverage);
  }

  lemma CascadeEnters(waits: set<Wait>, current: ThreadId, w: TimeWindow,
                      depth: nat, maxDepth: nat, path: set<ThreadId>)
    requires depth < maxDepth && current !in path && Partition(waits, current, w) != []
    ensures var intervals := Partition(waits, current, w);
            Cascade(waits, current, w, Some(SatSub(maxDepth, depth)), path) ==
            Outcome(SumIntervals(waits, intervals, Some(SatSub(maxDepth, depth + 1)), path + {current}),
                    SatSub(Duration(w), Coverage(intervals)))
  {
    OneLevelSpent(maxDepth, depth);
    CascadeUnfolds(waits, current, w, Some(SatSub(maxDepth, depth)), path);
  }

  lemma OneLevelSpent(maxDepth: nat, depth: nat)
    requires depth < maxDepth
    ensures SatSub(maxDepth, depth) > 0 && Spend(Some(SatSub(maxDepth, depth))) == Some(SatSub(maxDepth, depth + 1))
  {}

  // ---------- postcondition checks ----------

  datatype InvariantError = InvariantError(i2Ok: bool, i7Ok: bool)

  /** I-2: no attributed delay exceeds its raw wait. */
  predicate CheckNonAmplification(result: WaitForGraph)
    requires result.Valid()
    reads result
  {
    var rows := result.AllEdges();
    forall i | 0 <= i < |rows| :: rows[i].edge.weight.attributedDelayMs <= rows[i].edge.weight.rawWaitMs
  }

  /** I-7: position by position in report order, the same endpoints, window and
      raw wait. */
  predicate CheckLocality(original: WaitForGraph, result: WaitForGraph)
    requires original.Valid() && result.Valid()
    reads original, result
  {
    var a, b := original.AllEdges(), result.AllEdges();
    && |a| == |b|
    && forall i | 0 <= i < |a| ::
         && SameKey(a[i].edge, b[i].edge)
         && a[i].edge.weight.window == b[i].edge.weight.window
         && a[i].edge.weight.rawWaitMs == b[i].edge.weight.rawWaitMs
  }

  function VerifyEnginePostconditions(original: WaitForGraph, result: WaitForGraph): Result<(), InvariantError>
    requires original.Valid() && result.Valid()
    reads original, result
  {
    var i2, i7 := CheckNonAmplification(result), CheckLocality(original, result);
    if i2 && i7 then Ok(()) else Err(InvariantError(i2, i7))
  }

  /** The first check says of every edge that its delay is within its raw wait. */
  lemma AmplificationIsCaught(result: WaitForGraph)
    requires result.Valid()
    ensures CheckNonAmplification(result) <==>
              forall k | 0 <= k < |result.Edges()| ::
                result.Edges()[k].weight.attributedDelayMs <= result.Edges()[k].weight.rawWaitMs
  {
    SortedRowsAreTheEdges(result.Edges());
    var rows, es := result.AllEdges(), result.Edges();
    if CheckNonAmplification(result) {
      forall k | 0 <= k < |es| ensures es[k].weight.attributedDelayMs <= es[k].weight.rawWaitMs {
        assert Row(k, es[k]) in rows;
        var i :| 0 <= i < |rows| && rows[i] == Row(k, es[k]);
      }
    } else {
      var i :| 0 <= i < |rows| && rows[i].edge.weight.attributedDelayMs > rows[i].edge.weight.rawWaitMs;
      assert rows[i] in rows;
    }
  }

  predicate SameWait(e: Edge, f: Edge) {
    e.weight.window == f.weight.window && e.weight.rawWaitMs == f.weight.rawWaitMs
  }

  lemma SortedPairs(es: seq<Edge>, rs: seq<Edge>, a: seq<Row>, b: seq<Row>, i: nat)
    requires a == StableSort(Rows(es)) && b == StableSort(Rows(rs)) && i < |a|
    requires |es| == |rs| && forall k | 0 <= k < |es| :: SameKey(es[k], rs[k])
    ensures |a| == |b| && a[i].index == b[i].index < |es| && SameKey(a[i].edge, b[i].edge)
    ensures a[i].edge == es[a[i].index] && b[i].edge == rs[a[i].index]
  {
    SortEndsAligned(Rows(es), Rows(rs));
    SortedRowsAreTheEdges(es);
    SortedRowsAreTheEdges(rs);
    assert a[i] in a && b[i] in b;
  }

  lemma PairOfIndex(es: seq<Edge>, rs: seq<Edge>, a: seq<Row>, b: seq<Row>, k: nat) returns (i: nat)
    requires a == StableSort(Rows(es)) && b == StableSort(Rows(rs)) && k < |es|
    requires |es| == |rs| && forall k | 0 <= k < |es| :: SameKey(es[k], rs[k])
    ensures i < |a| == |b| && a[i].edge == es[k] && b[i].edge == rs[k]
  {
    SortedRowsAreTheEdges(es);
    assert Row(k, es[k]) in a;
    i :| 0 <= i < |a| && a[i] == Row(k, es[k]);
    SortedPairs(es, rs, a, b, i);
  }

  lemma SamePairs(es: seq<Edge>, rs: seq<Edge>, a: seq<Row>, b: seq<Row>)
    requires a == StableSort(Rows(es)) && b == StableSort(Rows(rs))
    requires |es| == |rs| && forall k | 0 <= k < |es| :: SameKey(es[k], rs[k])
    ensures (forall i | 0 <= i < |a| && i < |b| :: SameKey(a[i].edge, b[i].edge) && SameWait(a[i].edge, b[i].edge))
       <==> (forall k | 0 <= k < |es| :: SameWait(es[k], rs[k]))
  {
    forall i | 0 <= i < |a| && i < |b|
      ensures SameKey(a[i].edge, b[i].edge)
      ensures exists k :: 0 <= k < |es| && a[i].edge == es[k] && b[i].edge == rs[k]
    {
      SortedPairs(es, rs, a, b, i);
    }
    forall k | 0 <= k < |es|
      ensures exists i :: 0 <= i < |a| && i < |b| && a[i].edge == es[k] && b[i].edge == rs[k]
    {
      var i := PairOfIndex(es, rs, a, b, k);
    }
  }

  /** The second check rejects graphs of different size. If the endpoints agree edge
      by edge, it says exactly that no window and no raw wait has changed. */
  lemma LocalityIsExact(original: WaitForGraph, result: WaitForGraph)
    requires original.Valid() && result.Valid()
    ensures CheckLocality(original, result) ==> |original.Edges()| == |result.Edges()|
    ensures var es, rs := original.Edges(), result.Edges();
            |es| == |rs| && (forall k | 0 <= k < |es| :: SameKey(es[k], rs[k])) ==>
              (CheckLocality(original, result) <==> forall k | 0 <= k < |es| :: SameWait(es[k], rs[k]))
  {
    var es, rs := original.Edges(), result.Edges();
    SortedRowsAreTheEdges(es);
    SortedRowsAreTheEdges(rs);
    if |es| == |rs| && forall k | 0 <= k < |es| :: SameKey(es[k], rs[k]) {
      SamePairs(es, rs, original.AllEdges(), result.AllEdges());
      LocalityOfRows(original, result);
    }
  }

  lemma LocalityOfRows(original: WaitForGraph, result: WaitForGraph)
    requires original.Valid() && result.Valid()
    ensures var a, b := original.AllEdges(), result.AllEdges();
            CheckLocality(original, result) <==>
              |a| == |b| && forall i | 0 <= i < |a| :: SameKey(a[i].edge, b[i].edge) && SameWait(a[i].edge, b[i].edge)
  {}

  lemma AmplificationChecked(result: WaitForGraph)
    requires result.Valid()
    requires forall k | 0 <= k < |result.Edges()| ::
               result.Edges()[k].weight.attributedDelayMs <= result.Edges()[k].weight.rawWaitMs
    ensures CheckNonAmplification(result)
  {
    SortedRowsAreTheEdges(result.Edges());
    var rows := result.AllEdges();
    forall i | 0 <= i < |rows| ensures rows[i].edge.weight.attributedDelayMs <= rows[i].edge.weight.rawWaitMs {
      assert rows[i] in rows;
    }
  }

  /** The checks accept every relabelling that only lowers delays. */
  lemma ChecksPass(original: WaitForGraph, result: WaitForGraph)
    requires original.Valid() && result.Valid()
    requires |result.Edges()| == |original.Edges()|
    requires forall k | 0 <= k < |original.Edges()| ::
               && SameButDelay(original.Edges()[k], result.Edges()[k])
               && result.Edges()[k].weight.attributedDelayMs <= result.Edges()[k].weight.rawWaitMs
    ensures VerifyEnginePostconditions(original, result).Ok?
  {
    SortAligned(Rows(original.Edges()), Rows(result.Edges()));
    AmplificationChecked(result);
  }

  // ---------- the engine ----------

  /** Attribute one edge, on a fresh path that starts at its source. */
  method AttributeEdge(graph: WaitForGraph, e: Edge, maxDepth: nat) returns (attributed: nat)
    requires graph.Valid()
    ensures attributed == Attributed(NormalWaits(graph.Edges()), e, LevelsBelowEntry(maxDepth))
  {
    var path := new PathSet(e.src);
    var propagated, _ := ComputeCascade(graph, e.dst, e.weight.window, 1, maxDepth, path);
    attributed := SatSub(e.weight.rawWaitMs, propagated);
  }

  /** Attribute every edge independently, in report order. */
  method AttributeAll(graph: WaitForGraph, maxDepth: nat) returns (attribution: map<nat, nat>)
    requires graph.Valid()
    ensures Attributes(attribution, graph.Edges(), LevelsBelowEntry(maxDepth))
    ensures forall k: nat | k < |graph.Edges()| :: k in attribution
  {
    var rows := graph.AllEdges();
    ghost var es := graph.Edges();
    SortedRowsAreTheEdges(es);
    attribution := map[];
    for i := 0 to |rows|
      invariant Attributes(attribution, es, LevelsBelowEntry(maxDepth))
      invariant Records(attribution, rows[..i])
    {
      var attributed := AttributeEdge(graph, rows[i].edge, maxDepth);
      RecordRow(attribution, rows, i, es, LevelsBelowEntry(maxDepth), attributed);
      attribution := attribution[rows[i].index := attributed];
    }
    assert rows[..|rows|] == rows;
    EveryIndexRecorded(attribution, rows, es);
  }

  ghost predicate Attributes(attribution: map<nat, nat>, es: seq<Edge>, left: Option<nat>) {
    forall k | k in attribution ::
      k < |es| && attribution[k] == Attributed(NormalWaits(es), es[k], left)
  }

  ghost predicate Records(attribution: map<nat, nat>, rows: seq<Row>) {
    forall r | r in rows :: r.index in attribution
  }

  lemma RecordRow(attribution: map<nat, nat>, rows: seq<Row>, i: nat, es: seq<Edge>,
                  left: Option<nat>, attributed: nat)
    requires Attributes(attribution, es, left) && i < |rows| && Records(attribution, rows[..i])
    requires forall r | r in rows :: r.index < |es| && r.edge == es[r.index]
    requires attributed == Attributed(NormalWaits(es), rows[i].edge, left)
    ensures Attributes(attribution[rows[i].index := attributed], es, left)
    ensures Records(attribution[rows[i].index := attributed], rows[..i + 1])
  {
    assert rows[i] in rows;
    assert rows[..i + 1] == rows[..i] + [rows[i]];
  }

  lemma EveryIndexRecorded(attribution: map<nat, nat>, rows: seq<Row>, es: seq<Edge>)
    requires Records(attribution, rows)
    requires forall i | 0 <= i < |es| :: Row(i, es[i]) in rows
    ensures forall k: nat | k < |es| :: k in attribution
  {
    forall k: nat | k < |es| ensures k in attribution {
      var r := Row(k, es[k]);
      assert r in rows;
    }
  }

  /** Write the attribution into `result`, in edge-index order. */
  method WriteAttribution(result: WaitForGraph, attribution: map<nat, nat>)
    requires result.Valid()
    requires forall k: nat | k < |result.Edges()| :: k in attribution
    modifies result
    ensures result.Valid() && result.Kinds() == old(result.Kinds())
    ensures |result.Edges()| == |old(result.Edges())|
    ensures forall k | 0 <= k < |result.Edges()| ::
              result.Edges()[k] == WithDelay(old(result.Edges())[k], attribution[k])
  {
    ghost var before := result.Edges();
    for k := 0 to |result.edges|
      invariant result.Valid() && result.Kinds() == old(result.Kinds())
      invariant |result.Edges()| == |before|
      invariant forall j | 0 <= j < k :: result.Edges()[j] == WithDelay(before[j], attribution[j])
      invariant forall j | k <= j < |before| :: result.Edges()[j] == before[j]
    {
      result.SetAttributedDelay(k, attribution[k]);
    }
  }

  /** The `?` operator: keep an error, otherwise go on to `value`. */
  function Then<T, E>(check: Result<(), E>, value: T): Result<T, E> {
    match check
    case Ok(_) => Ok(value)
    case Err(e) => Err(e)
  }

  function DepthOrDefault(maxDepth: Option<nat>): nat {
    if maxDepth.Some? then maxDepth.value else DEFAULT_MAX_DEPTH
  }

  /** Edge by edge what the plain arithmetic leaves at that depth. */
  ghost predicate RanAt(es: seq<Edge>, rs: seq<Edge>, maxDepth: nat) {
    |rs| == |es| && forall i | 0 <= i < |es| :: rs[i] == WithDelay(es[i], LeftOf(es, es[i], maxDepth))
  }

  /** The engine never reports a violation, leaves its input alone, and returns
      the redistribution of the edge list, edge by edge at the same index. */
  method RunCascade(graph: WaitForGraph, maxDepth: Option<nat>) returns (r: Result<WaitForGraph, InvariantError>)
    requires graph.Valid()
    ensures r.Ok? && fresh(r.value) && r.value.Valid() && r.value.Kinds() == graph.Kinds()
    ensures r.value.Edges() == Redistribute(graph.Edges(), LevelsBelowEntry(DepthOrDefault(maxDepth)))
    ensures RanAt(graph.Edges(), r.value.Edges(), if maxDepth.Some? then maxDepth.value else 10)
    ensures maxDepth.None? && |graph.Kinds()| <= 10 ==> r.value.Edges() == Redistribute(graph.Edges(), None)
  {
    var depth := DepthOrDefault(maxDepth);
    var attribution := AttributeAll(graph, depth);
    var result := graph.CloneWithResetAttribution();
    WriteAttribution(result, attribution);
    assert result.Edges() == Redistribute(graph.Edges(), LevelsBelowEntry(depth));
    ChecksPass(graph, result);
    r := Then(VerifyEnginePostconditions(graph, result), result);
    RedistributionIsReference(graph.Edges(), depth);
    if maxDepth.None? && |graph.Kinds()| <= 10 {
      FewThreadsNeedNoLimit(graph, depth);
    }
  }

  lemma FewThreadsNeedNoLimit(graph: WaitForGraph, depth: nat)
    requires graph.Valid() && |graph.Kinds()| <= depth
    ensures Redistribute(graph.Edges(), LevelsBelowEntry(depth)) == Redistribute(graph.Edges(), None)
  {
    var es, threads := graph.Edges(), graph.Kinds().Keys;
    forall e | e in es ensures e.src in threads && e.dst in threads {
      var i :| 0 <= i < |es| && es[i] == e;
    }
    assert |threads| == |graph.Kinds()|;
    DeepEnoughIsUnlimited(es, threads, depth);
  }
}
