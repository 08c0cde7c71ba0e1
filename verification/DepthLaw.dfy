/** What the depth limit does to attribution, on every graph
    (src/cascade/engine.rs, src/cascade/invariants.rs). */
module DepthLaw {
  import opened Collections
  import opened GraphTypes
  import opened Sweep
  import opened CascadeSpec
  import opened Attribution

  /** What a call takes over from its caller: all it propagates or keeps. */
  ghost function Absorbed(waits: set<Wait>, node: ThreadId, w: TimeWindow,
                          left: Option<nat>, path: set<ThreadId>): nat
  {
    Cascade(waits, node, w, left, path).propagated + Cascade(waits, node, w, left, path).selfBlame
  }

  // ---------- deeper runs never attribute less ----------

  lemma Opened(waits: set<Wait>, node: ThreadId, w: TimeWindow, left: Option<nat>, below: Option<nat>,
               path: set<ThreadId>, o: Outcome)
    requires left != Some(0) && below == Spend(left) && node !in path && Partition(waits, node, w) != []
    requires o == Cascade(waits, node, w, left, path)
    ensures o.propagated == SumIntervals(waits, Partition(waits, node, w), below, path + {node})
    ensures o.selfBlame == SatSub(Duration(w), Coverage(Partition(waits, node, w)))
  {
    CascadeUnfolds(waits, node, w, left, path);
  }

  lemma Closed(waits: set<Wait>, node: ThreadId, w: TimeWindow, left: Option<nat>, path: set<ThreadId>)
    requires node in path || Partition(waits, node, w) == []
    ensures Cascade(waits, node, w, left, path) == Outcome(0, Duration(w))
  {
    CascadeUnfolds(waits, node, w, left, path);
  }

  /** More levels never absorb more, nor propagate more if any level was left. */
  ghost predicate Shrinks(waits: set<Wait>, node: ThreadId, w: TimeWindow,
                          shallow: nat, deep: nat, path: set<ThreadId>)
  {
    && Absorbed(waits, node, w, Some(deep), path) <= Absorbed(waits, node, w, Some(shallow), path)
    && (shallow > 0 ==>
          Cascade(waits, node, w, Some(deep), path).propagated
          <= Cascade(waits, node, w, Some(shallow), path).propagated)
  }

  lemma NothingLeft(waits: set<Wait>, node: ThreadId, w: TimeWindow, deep: nat, path: set<ThreadId>)
    ensures Shrinks(waits, node, w, 0, deep, path)
  {
    LedgerBound(waits, node, w, Some(deep), path);
    CascadeUnfolds(waits, node, w, Some(0), path);
  }

  /** With more levels left a call never absorbs more, and once it may recurse at
      all it never propagates more. */
  lemma {:induction false} DeeperAbsorbsLess(waits: set<Wait>, node: ThreadId, w: TimeWindow,
                                             shallow: nat, deep: nat, path: set<ThreadId>)
    requires shallow <= deep
    ensures Shrinks(waits, node, w, shallow, deep, path)
    decreases shallow, 2, 0
  {
    if shallow == 0 {
      NothingLeft(waits, node, w, deep, path);
    } else if node in path || Partition(waits, node, w) == [] {
      Closed(waits, node, w, Some(shallow), path);
      Closed(waits, node, w, Some(deep), path);
    } else {
      OpenShrinks(waits, node, w, shallow, deep, path);
    }
  }

  lemma {:induction false} OpenShrinks(waits: set<Wait>, node: ThreadId, w: TimeWindow,
                                       shallow: nat, deep: nat, path: set<ThreadId>)
    requires 0 < shallow <= deep && node !in path && Partition(waits, node, w) != []
    ensures Shrinks(waits, node, w, shallow, deep, path)
    decreases shallow, 1, 0
  {
    var s: nat, d: nat := shallow - 1, deep - 1;
    IntervalsShrink(waits, Partition(waits, node, w), s, d, path + {node});
  }

  lemma {:induction false} IntervalsShrink(waits: set<Wait>, intervals: seq<ElementaryInterval>,
                                           shallow: nat, deep: nat, path: set<ThreadId>)
    requires shallow <= deep
    ensures SumIntervals(waits, intervals, Some(deep), path) <= SumIntervals(waits, intervals, Some(shallow), path)
    decreases shallow, 4, |intervals|
  {
    if intervals != [] {
      var first := intervals[0];
      TargetsShrink(waits, first.window, first.targets, |first.targets|, shallow, deep, path);
      IntervalsShrink(waits, intervals[1..], shallow, deep, path);
    }
  }

  lemma {:induction false} TargetsShrink(waits: set<Wait>, w: TimeWindow, targets: seq<ThreadId>, share: nat,
                                         shallow: nat, deep: nat, path: set<ThreadId>)
    requires shallow <= deep
    ensures SumTargets(waits, w, targets, share, Some(deep), path)
         <= SumTargets(waits, w, targets, share, Some(shallow), path)
    decreases shallow, 3, |targets|
  {
    if targets != [] {
      DeeperAbsorbsLess(waits, targets[0], w, shallow, deep, path);
      TransferMonotone(Cascade(waits, targets[0], w, Some(deep), path),
                       Cascade(waits, targets[0], w, Some(shallow), path),
                       share, ConcurrentWaiters(waits, targets[0], w));
      TargetsShrink(waits, w, targets[1..], share, shallow, deep, path);
    }
  }

  lemma TransferMonotone(a: Outcome, b: Outcome, share: nat, external: nat)
    requires a.propagated + a.selfBlame <= b.propagated + b.selfBlame
    ensures Transfer(a, share, external) <= Transfer(b, share, external)
  {
    var n, m := AtLeastOne(share), AtLeastOne(external);
    QuotientMonotone(a.propagated + a.selfBlame, b.propagated + b.selfBlame, n);
    QuotientMonotone(Quotient(a.propagated + a.selfBlame, n), Quotient(b.propagated + b.selfBlame, n), m);
  }

  /** From depth 2 on, a deeper run never attributes less to any edge; below
      depth 2 every edge keeps all of its raw wait. */
  lemma DeeperNeverAttributesLess(es: seq<Edge>, shallow: nat, deep: nat, i: nat)
    requires shallow <= deep && i < |es|
    ensures var a := Redistribute(es, LevelsBelowEntry(shallow))[i].weight.attributedDelayMs;
            var b := Redistribute(es, LevelsBelowEntry(deep))[i].weight.attributedDelayMs;
            if shallow < 2 then b <= a == es[i].weight.rawWaitMs else a <= b
  {
    var e, waits := es[i], NormalWaits(es);
    DeeperAbsorbsLess(waits, e.dst, e.weight.window, SatSub(shallow, 1), SatSub(deep, 1), {e.src});
    CascadeUnfolds(waits, e.dst, e.weight.window, LevelsBelowEntry(shallow), {e.src});
  }

  lemma {:induction false} EqualTotals(es: seq<Edge>, fs: seq<Edge>)
    requires |es| == |fs|
    requires forall i | 0 <= i < |es| :: es[i].weight.attributedDelayMs <= fs[i].weight.attributedDelayMs
    requires TotalAttributed(fs) <= TotalAttributed(es)
    ensures forall i | 0 <= i < |es| :: es[i].weight.attributedDelayMs == fs[i].weight.attributedDelayMs
  {
    if es != [] {
      TotalAttributedMonotone(es[1..], fs[1..]);
      EqualTotals(es[1..], fs[1..]);
      forall i | 0 < i < |es| ensures es[i].weight.attributedDelayMs == fs[i].weight.attributedDelayMs {
        assert es[i] == es[1..][i - 1] && fs[i] == fs[1..][i - 1];
      }
    }
  }

  /** When the depth check accepts: always from a depth below 2, and otherwise
      only when the deeper run changes no edge at all. */
  lemma DepthCheckAccepts(es: seq<Edge>, shallow: nat, deep: nat)
    requires shallow <= deep
    ensures var a, b := Redistribute(es, LevelsBelowEntry(shallow)), Redistribute(es, LevelsBelowEntry(deep));
            TotalAttributed(b) <= TotalAttributed(a) <==> shallow < 2 || a == b
  {
    var a, b := Redistribute(es, LevelsBelowEntry(shallow)), Redistribute(es, LevelsBelowEntry(deep));
    forall i | 0 <= i < |es|
      ensures if shallow < 2 then b[i].weight.attributedDelayMs <= a[i].weight.attributedDelayMs
              else a[i].weight.attributedDelayMs <= b[i].weight.attributedDelayMs
    {
      DeeperNeverAttributesLess(es, shallow, deep, i);
    }
    if shallow < 2 {
      TotalAttributedMonotone(b, a);
    } else if TotalAttributed(b) <= TotalAttributed(a) {
      EqualTotals(a, b);
      forall i | 0 <= i < |es| ensures a[i] == b[i] {
        assert a[i] == WithDelay(es[i], a[i].weight.attributedDelayMs);
        assert b[i] == WithDelay(es[i], b[i].weight.attributedDelayMs);
      }
    }
  }
}
