/** Attributed delay of every edge of a graph, and the laws of the whole pass
    (src/cascade/engine.rs, src/cascade/invariants.rs). */
module Attribution {
  import opened Collections
  import opened GraphTypes
  import opened Sweep
  import opened CascadeSpec

  /** Levels of recursion a `max_depth` leaves below the entry call at depth 1. */
  function LevelsBelowEntry(maxDepth: nat): Option<nat> {
    Some(SatSub(maxDepth, 1))
  }

  ghost function Propagated(waits: set<Wait>, e: Edge, left: Option<nat>): nat {
    Cascade(waits, e.dst, e.weight.window, left, {e.src}).propagated
  }

  ghost function Attributed(waits: set<Wait>, e: Edge, left: Option<nat>): nat {
    SatSub(e.weight.rawWaitMs, Propagated(waits, e, left))
  }

  ghost function Redistribute(es: seq<Edge>, left: Option<nat>): seq<Edge> {
    seq(|es|, i requires 0 <= i < |es| =>
      WithDelay(es[i], Attributed(NormalWaits(es), es[i], left)))
  }

  /** As every edge constructor of the graph sets it. */
  predicate RawIsDuration(es: seq<Edge>) {
    forall e | e in es :: e.weight.rawWaitMs == Duration(e.weight.window)
  }

  // ---------- ledger, floor ----------

  /** Nothing saturates: attributed and propagated delay add up to the raw wait,
      and the destination is blamed at least for the time it was not waiting. */
  lemma EdgeLedger(es: seq<Edge>, left: Option<nat>, i: nat)
    requires RawIsDuration(es) && i < |es|
    ensures var e := es[i];
            var attributed := Redistribute(es, left)[i].weight.attributedDelayMs;
            && attributed + Propagated(NormalWaits(es), e, left) == e.weight.rawWaitMs
            && attributed >= e.weight.rawWaitMs - |BusyMs(NormalWaits(es), e.dst, e.weight.window)|
  {
    var e := es[i];
    assert e in es;
    LedgerBound(NormalWaits(es), e.dst, e.weight.window, left, {e.src});
  }

  // ---------- only the set of normal waits matters ----------

  lemma NormalWaitsPreserved(es: seq<Edge>, left: Option<nat>)
    ensures NormalWaits(Redistribute(es, left)) == NormalWaits(es)
  {
    var rs := Redistribute(es, left);
    forall x ensures x in NormalWaits(rs) <==> x in NormalWaits(es) {
      if x in NormalWaits(es) {
        var e :| e in es && e.weight.kind == Normal && WaitOf(e) == x;
        var i :| 0 <= i < |es| && es[i] == e;
        assert rs[i] in rs && WaitOf(rs[i]) == x;
      }
      if x in NormalWaits(rs) {
        var r :| r in rs && r.weight.kind == Normal && WaitOf(r) == x;
        var i :| 0 <= i < |rs| && rs[i] == r;
        assert es[i] in es && WaitOf(es[i]) == x;
      }
    }
  }

  /** A second run, at any depth limit, forgets the first. */
  lemma RerunForgets(es: seq<Edge>, first: Option<nat>, second: Option<nat>)
    ensures Redistribute(Redistribute(es, first), second) == Redistribute(es, second)
  {
    NormalWaitsPreserved(es, first);
    var rs := Redistribute(es, first);
    assert |Redistribute(rs, second)| == |Redistribute(es, second)|;
    forall i | 0 <= i < |es| ensures Redistribute(rs, second)[i] == Redistribute(es, second)[i] {
      assert Attributed(NormalWaits(rs), rs[i], second) == Attributed(NormalWaits(es), es[i], second);
    }
  }

  /** Two graphs with the same set of normal waits attribute the same to edges
      with the same endpoints, window and raw wait: order, repetition, wait types,
      earlier attribution and closure returns do not matter. */
  lemma OnlyNormalWaitsMatter(es: seq<Edge>, fs: seq<Edge>, left: Option<nat>)
    requires NormalWaits(es) == NormalWaits(fs)
    ensures forall i, j | 0 <= i < |es| && 0 <= j < |fs|
                          && WaitOf(es[i]) == WaitOf(fs[j]) && es[i].weight.rawWaitMs == fs[j].weight.rawWaitMs ::
              Redistribute(es, left)[i].weight.attributedDelayMs == Redistribute(fs, left)[j].weight.attributedDelayMs
  {
    forall i, j | 0 <= i < |es| && 0 <= j < |fs|
                  && WaitOf(es[i]) == WaitOf(fs[j]) && es[i].weight.rawWaitMs == fs[j].weight.rawWaitMs
      ensures Redistribute(es, left)[i].weight.attributedDelayMs
           == Redistribute(fs, left)[j].weight.attributedDelayMs
    {
      assert WaitOf(es[i]).window == WaitOf(fs[j]).window;
    }
  }

  /** In particular for graphs with the same normal edges in any order and number. */
  lemma SameNormalEdges(es: seq<Edge>, fs: seq<Edge>)
    requires forall e: Edge | e.weight.kind == Normal :: e in es <==> e in fs
    ensures NormalWaits(es) == NormalWaits(fs)
  {
    forall x ensures x in NormalWaits(es) <==> x in NormalWaits(fs) {
      if x in NormalWaits(es) {
        var e :| e in es && e.weight.kind == Normal && WaitOf(e) == x;
        assert e in fs;
      }
      if x in NormalWaits(fs) {
        var e :| e in fs && e.weight.kind == Normal && WaitOf(e) == x;
        assert e in es;
      }
    }
  }

  ghost function WithoutClosureReturns(es: seq<Edge>): seq<Edge> {
    if es == [] then []
    else if es[0].weight.kind == Normal then [es[0]] + WithoutClosureReturns(es[1..])
    else WithoutClosureReturns(es[1..])
  }

  ghost function Relabel(waits: set<Wait>, es: seq<Edge>, left: Option<nat>): seq<Edge> {
    if es == [] then []
    else [WithDelay(es[0], Attributed(waits, es[0], left))] + Relabel(waits, es[1..], left)
  }

  lemma {:induction false} RelabelAt(waits: set<Wait>, es: seq<Edge>, left: Option<nat>)
    ensures |Relabel(waits, es, left)| == |es|
    ensures forall i | 0 <= i < |es| ::
              Relabel(waits, es, left)[i] == WithDelay(es[i], Attributed(waits, es[i], left))
  {
    if es != [] {
      RelabelAt(waits, es[1..], left);
    }
  }

  lemma {:induction false} WithoutClosureReturnsElements(es: seq<Edge>)
    ensures forall e :: e in WithoutClosureReturns(es) <==> e in es && e.weight.kind == Normal
  {
    if es != [] {
      WithoutClosureReturnsElements(es[1..]);
      assert es == [es[0]] + es[1..];
    }
  }

  lemma {:induction false} RelabelCommutes(waits: set<Wait>, es: seq<Edge>, left: Option<nat>)
    ensures WithoutClosureReturns(Relabel(waits, es, left)) == Relabel(waits, WithoutClosureReturns(es), left)
  {
    if es != [] {
      RelabelCommutes(waits, es[1..], left);
      var head := WithDelay(es[0], Attributed(waits, es[0], left));
      assert Relabel(waits, es, left)[1..] == Relabel(waits, es[1..], left);
      if es[0].weight.kind == Normal {
        var kept := WithoutClosureReturns(es);
        assert kept[0] == es[0] && kept[1..] == WithoutClosureReturns(es[1..]);
      }
    }
  }

  /** Dropping the closure-return edges before or after the pass is the same. */
  lemma ClosureReturnsDoNotInterfere(es: seq<Edge>, left: Option<nat>)
    ensures Redistribute(WithoutClosureReturns(es), left) == WithoutClosureReturns(Redistribute(es, left))
  {
    var kept := WithoutClosureReturns(es);
    WithoutClosureReturnsElements(es);
    SameNormalEdges(kept, es);
    RelabelCommutes(NormalWaits(es), es, left);
    RelabelAt(NormalWaits(es), es, left);
    RelabelAt(NormalWaits(es), kept, left);
    assert Redistribute(es, left) == Relabel(NormalWaits(es), es, left);
    assert Redistribute(kept, left) == Relabel(NormalWaits(es), kept, left);
  }

  // ---------- depth ----------

  ghost predicate EndpointsIn(es: seq<Edge>, threads: set<ThreadId>) {
    forall e | e in es :: e.src in threads && e.dst in threads
  }

  /** Any depth limit of at least the number of threads gives the result of the
      unlimited recursion. */
  lemma DeepEnoughIsUnlimited(es: seq<Edge>, threads: set<ThreadId>, maxDepth: nat)
    requires EndpointsIn(es, threads) && maxDepth >= |threads|
    ensures Redistribute(es, LevelsBelowEntry(maxDepth)) == Redistribute(es, None)
  {
    var waits := NormalWaits(es);
    var left := LevelsBelowEntry(maxDepth);
    forall i | 0 <= i < |es| ensures Redistribute(es, left)[i] == Redistribute(es, None)[i] {
      var e := es[i];
      assert e in es;
      assert Sources(waits) - {e.src} <= threads - {e.src};
      SubsetSize(Sources(waits) - {e.src}, threads - {e.src});
      assert |threads - {e.src}| == |threads| - 1;
      DepthLimitIrrelevant(waits, e.dst, e.weight.window, left, {e.src});
    }
  }

  /** On a chain the attribution is known in closed form: a destination is blamed
      for exactly the time it was not itself waiting. */
  lemma ChainAttribution(es: seq<Edge>, maxDepth: nat, i: nat)
    requires RawIsDuration(es) && Chain(NormalWaits(es)) && i < |es|
    ensures var e := es[i];
            Redistribute(es, LevelsBelowEntry(maxDepth))[i].weight.attributedDelayMs ==
            if maxDepth >= 2 && e.src != e.dst
            then e.weight.rawWaitMs - |BusyMs(NormalWaits(es), e.dst, e.weight.window)|
            else e.weight.rawWaitMs
  {
    var e := es[i];
    assert e in es;
    ChainClosedForm(NormalWaits(es), e.dst, e.weight.window, LevelsBelowEntry(maxDepth), {e.src});
    CoverageIsBusyTime(NormalWaits(es), e.dst, e.weight.window);
  }

  ghost function TotalAttributed(es: seq<Edge>): nat {
    if es == [] then 0 else es[0].weight.attributedDelayMs + TotalAttributed(es[1..])
  }

  lemma {:induction false} TotalAttributedMonotone(es: seq<Edge>, fs: seq<Edge>)
    requires |es| == |fs|
    requires forall i | 0 <= i < |es| :: es[i].weight.attributedDelayMs <= fs[i].weight.attributedDelayMs
    ensures TotalAttributed(es) <= TotalAttributed(fs)
  {
    if es != [] {
      TotalAttributedMonotone(es[1..], fs[1..]);
    }
  }

  /** Depth monotonicity on chains; beyond depth 2 nothing changes at all. */
  lemma ChainDepthMonotone(es: seq<Edge>, shallow: nat, deep: nat)
    requires RawIsDuration(es) && Chain(NormalWaits(es)) && shallow <= deep
    ensures TotalAttributed(Redistribute(es, LevelsBelowEntry(deep)))
         <= TotalAttributed(Redistribute(es, LevelsBelowEntry(shallow)))
    ensures shallow >= 2 ==>
              Redistribute(es, LevelsBelowEntry(deep)) == Redistribute(es, LevelsBelowEntry(shallow))
  {
    var d, s := Redistribute(es, LevelsBelowEntry(deep)), Redistribute(es, LevelsBelowEntry(shallow));
    forall i | 0 <= i < |es|
      ensures d[i].weight.attributedDelayMs <= s[i].weight.attributedDelayMs
      ensures shallow >= 2 ==> d[i] == s[i]
    {
      ChainAttribution(es, deep, i);
      ChainAttribution(es, shallow, i);
    }
    TotalAttributedMonotone(d, s);
  }

  // ---------- waits that nobody forwards ----------

  /** An edge into a thread with no normal outgoing edge keeps all of its wait. */
  lemma LeafKeepsEverything(es: seq<Edge>, left: Option<nat>, i: nat)
    requires i < |es|
    requires forall e | e in es && e.weight.kind == Normal :: e.src != es[i].dst
    ensures Redistribute(es, left)[i].weight.attributedDelayMs == es[i].weight.rawWaitMs
  {
    var waits := NormalWaits(es);
    assert es[i].dst !in Sources(waits);
    if Partition(waits, es[i].dst, es[i].weight.window) != [] {
      PartitionNeedsSource(waits, es[i].dst, es[i].weight.window);
    }
  }
}
