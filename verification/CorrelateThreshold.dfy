/** How runs with different spurious-wakeup thresholds relate (src/correlate.rs). */
module CorrelateThreshold {
  import opened Collections
  import opened GraphTypes
  import opened Events
  import opened CorrelateSpec
  import opened CorrelateBooks
  import opened CorrelateHistory
  import opened CorrelateTables
  import opened CorrelateEdges

  lemma OwedShrinks(h: seq<WperfEvent>, low: nat, high: nat, j: nat)
    requires low <= high
    ensures Owed(h, high, j) <= Owed(h, low, j)
  {
    if Finishes(h, j) && Spurious(h, low, h[j].nextTid, j) {
      var t := h[j].nextTid;
      var k: nat :| ResolvedAt(h, t, j, k) && BlocksOut(h[k], t)
                    && SatSub(h[k].timestampNs, h[j].timestampNs) < low;
      assert Spurious(h, high, t, j);
    }
  }

  lemma {:induction false} SumBagsMonotone(a: seq<multiset<Edge>>, b: seq<multiset<Edge>>)
    requires |a| == |b| && forall j | 0 <= j < |a| :: a[j] <= b[j]
    ensures SumBags(a) <= SumBags(b)
  {
    if a != [] {
      SumBagsMonotone(a[..|a| - 1], b[..|b| - 1]);
    }
  }

  // ---------- what a threshold cannot influence ----------

  /** Two runs over the same events: same tables, same unfiltered counters, and
      every edge one has and the other lacks was filtered by the other. */
  ghost predicate Twins(a: Machine, b: Machine) {
    && a.offCpu == b.offCpu && a.futex == b.futex && a.pending == b.pending && a.io == b.io
    && a.stats.edgesCreated + a.stats.falseWakeupFiltered == b.stats.edgesCreated + b.stats.falseWakeupFiltered
  }

  ghost function EdgeAccount(m: Machine): nat {
    m.stats.edgesCreated + m.stats.falseWakeupFiltered
  }

  lemma ResolveAccount(m: Machine, e: WperfEvent, thresholdNs: nat)
    ensures EdgeAccount(ResolvePrev(m, e, thresholdNs))
         == EdgeAccount(m) + if e.prevTid != 0 && e.prevTid in m.pending then 1 else 0
  {}

  lemma SwitchOutInAccount(m: Machine, e: WperfEvent)
    ensures EdgeAccount(SwitchOut(m, e)) == EdgeAccount(m)
    ensures EdgeAccount(SwitchIn(m, e)) == EdgeAccount(m)
  {}

  lemma SwitchAccount(m: Machine, e: WperfEvent, thresholdNs: nat)
    ensures EdgeAccount(HandleSwitch(m, e, thresholdNs))
         == EdgeAccount(m) + if e.prevTid != 0 && e.prevTid in m.pending then 1 else 0
  {
    var m1 := ResolvePrev(m, e, thresholdNs);
    ResolveAccount(m, e, thresholdNs);
    SwitchOutInAccount(m1, e);
    SwitchOutInAccount(SwitchOut(m1, e), e);
  }

  lemma ExitAccount(m: Machine, e: WperfEvent)
    ensures EdgeAccount(HandleExit(m, e)) == EdgeAccount(m) + if e.tid in m.pending then 1 else 0
  {
    assert EdgeAccount(HandleExit(m, e)) == EdgeAccount(CommitPending(m, e.tid));
  }

  lemma AccountElsewhere(m: Machine, e: WperfEvent, thresholdNs: nat)
    requires e.Kind() != Some(Switch) && e.Kind() != Some(Exit)
    ensures EdgeAccount(Step(m, e, thresholdNs))
         == EdgeAccount(m) + if e.Kind() == Some(IoComplete) && KeyOf(e) in m.io then 2 else 0
  {
    var c := Count(m);
    match e.Kind()
    case Some(IoComplete) => assert Step(m, e, thresholdNs) == HandleIoComplete(c, e);
    case Some(IoIssue) => assert EdgeAccount(HandleIoIssue(c, e)) == EdgeAccount(m);
    case Some(FutexWait) => assert EdgeAccount(HandleFutexWait(c, e)) == EdgeAccount(m);
    case Some(Wakeup) => assert EdgeAccount(HandleWakeup(c, e)) == EdgeAccount(m);
    case Some(WakeupNew) => assert EdgeAccount(HandleWakeup(c, e)) == EdgeAccount(m);
    case _ =>
  }

  /** Each event settles as many edges as its leaver has deferred, plus two for
      a completed request; the threshold only decides where they are counted. */
  lemma AccountStep(m: Machine, e: WperfEvent, thresholdNs: nat)
    ensures EdgeAccount(Step(m, e, thresholdNs)) == EdgeAccount(m)
            + (if Leaver(e).Some? && Leaver(e).value in m.pending then 1 else 0)
            + (if e.Kind() == Some(IoComplete) && KeyOf(e) in m.io then 2 else 0)
  {
    match e.Kind()
    case Some(Switch) => SwitchAccount(Count(m), e, thresholdNs);
    case Some(Exit) => ExitAccount(Count(m), e);
    case _ => AccountElsewhere(m, e, thresholdNs);
  }

  lemma TwinTables(a: Machine, b: Machine, e: WperfEvent, low: nat, high: nat)
    requires Twins(a, b) && 0 !in a.pending && 0 !in a.offCpu
    ensures Step(a, e, low).offCpu == Step(b, e, high).offCpu
    ensures Step(a, e, low).futex == Step(b, e, high).futex
    ensures Step(a, e, low).pending == Step(b, e, high).pending
    ensures Step(a, e, low).io == Step(b, e, high).io
  {
    var x, y := Step(a, e, low), Step(b, e, high);
    assert ConsumedWaitType(a, e) == ConsumedWaitType(b, e);
    forall t: u32
      ensures t in x.offCpu <==> t in y.offCpu
      ensures t in x.offCpu ==> x.offCpu[t] == y.offCpu[t]
    {
      StepOff(a, e, low, t);
      StepOff(b, e, high, t);
    }
    forall t: u32
      ensures t in x.futex <==> t in y.futex
      ensures t in x.futex ==> x.futex[t] == y.futex[t]
    {
      StepFutex(a, e, low, t);
      StepFutex(b, e, high, t);
    }
    forall t: u32
      ensures t in x.pending <==> t in y.pending
      ensures t in x.pending ==> x.pending[t] == y.pending[t]
    {
      StepPending(a, e, low, t);
      StepPending(b, e, high, t);
    }
    forall k
      ensures k in x.io <==> k in y.io
      ensures k in x.io ==> x.io[k] == y.io[k]
    {
      StepIo(a, e, low, k);
      StepIo(b, e, high, k);
    }
  }

  lemma {:induction false} RunsAreTwins(h: seq<WperfEvent>, low: nat, high: nat)
    ensures Twins(Run(h, low), Run(h, high))
  {
    if h != [] {
      var n := |h| - 1;
      RunsAreTwins(h[..n], low, high);
      RunKeepsDeferred(h[..n], low);
      var a, b := Run(h[..n], low), Run(h[..n], high);
      TwinTables(a, b, h[n], low, high);
      AccountStep(a, h[n], low);
      AccountStep(b, h[n], high);
      assert EdgeAccount(a) == EdgeAccount(b);
      assert Run(h, low) == Step(a, h[n], low) && Run(h, high) == Step(b, h[n], high);
    }
  }

  lemma {:induction false} DrainAccount(m: Machine, order: seq<u32>)
    requires Deferred(m) && Distinct(order) && forall t | t in order :: t in m.pending
    ensures EdgeAccount(Drain(m, order)) == EdgeAccount(m) + |order|
  {
    DrainBooks(m, order);
  }

  lemma EnumerationSize(order: seq<u32>, keys: set<u32>)
    requires Enumerates(order, keys)
    ensures |order| == |keys|
  {
    DistinctSize(order, keys);
  }

  /** Raising the threshold only removes edges, and moves exactly as many into
      the filtered count as it removes. */
  lemma RaisingTheThreshold(h: seq<WperfEvent>, low: nat, high: nat, lowOrder: seq<u32>, highOrder: seq<u32>)
    requires low <= high
    requires Enumerates(lowOrder, Run(h, low).pending.Keys)
    requires Enumerates(highOrder, Run(h, high).pending.Keys)
    ensures var a, b := Correlate(h, low, lowOrder), Correlate(h, high, highOrder);
            && multiset(b.edges) <= multiset(a.edges)
            && a.stats.edgesCreated + a.stats.falseWakeupFiltered
               == b.stats.edgesCreated + b.stats.falseWakeupFiltered
  {
    GraphIsHistory(h, low, lowOrder);
    GraphIsHistory(h, high, highOrder);
    var lowBags, highBags := OwedBags(h, low, |h|), OwedBags(h, high, |h|);
    forall j: nat | j < |h| ensures highBags[j] <= lowBags[j] {
      OwedShrinks(h, low, high, j);
    }
    SumBagsMonotone(highBags, lowBags);
    RaisingKeepsAccount(h, low, high, lowOrder, highOrder);
  }

  lemma RaisingKeepsAccount(h: seq<WperfEvent>, low: nat, high: nat, lowOrder: seq<u32>, highOrder: seq<u32>)
    requires Enumerates(lowOrder, Run(h, low).pending.Keys)
    requires Enumerates(highOrder, Run(h, high).pending.Keys)
    ensures EdgeAccount(Correlate(h, low, lowOrder)) == EdgeAccount(Correlate(h, high, highOrder))
  {
    RunsAreTwins(h, low, high);
    RunKeepsDeferred(h, low);
    RunKeepsDeferred(h, high);
    DrainAccount(Run(h, low), lowOrder);
    DrainAccount(Run(h, high), highOrder);
    EnumerationSize(lowOrder, Run(h, low).pending.Keys);
    EnumerationSize(highOrder, Run(h, high).pending.Keys);
  }

  /** A zero threshold filters nothing. */
  lemma {:induction false} ZeroFiltersNothing(h: seq<WperfEvent>)
    ensures Run(h, 0).stats.falseWakeupFiltered == 0
    ensures forall j: nat :: Finishes(h, j) ==> Owed(h, 0, j) == multiset{WaitEdge(h, j)}
  {
    if h != [] {
      ZeroFiltersNothing(h[..|h| - 1]);
      ZeroStep(Run(h[..|h| - 1], 0), h[|h| - 1]);
    }
  }

  lemma ZeroSwitch(m: Machine, e: WperfEvent)
    ensures HandleSwitch(m, e, 0).stats.falseWakeupFiltered == m.stats.falseWakeupFiltered
  {
    var m1 := ResolvePrev(m, e, 0);
    assert m1.stats.falseWakeupFiltered == m.stats.falseWakeupFiltered;
    assert SwitchOut(m1, e).stats == m1.stats;
    SwitchInKeepsFiltered(SwitchOut(m1, e), e);
  }

  lemma SwitchInKeepsFiltered(m: Machine, e: WperfEvent)
    ensures SwitchIn(m, e).stats.falseWakeupFiltered == m.stats.falseWakeupFiltered
  {}

  lemma ZeroElsewhere(m: Machine, e: WperfEvent)
    requires e.Kind() != Some(Switch)
    ensures Step(m, e, 0).stats.falseWakeupFiltered == m.stats.falseWakeupFiltered
  {
    match e.Kind()
    case Some(Exit) => assert HandleExit(Count(m), e).stats == CommitPending(Count(m), e.tid).stats;
    case _ =>
  }

  lemma ZeroStep(m: Machine, e: WperfEvent)
    ensures Step(m, e, 0).stats.falseWakeupFiltered == m.stats.falseWakeupFiltered
  {
    if e.Kind() == Some(Switch) {
      ZeroSwitch(Count(m), e);
      assert Step(m, e, 0) == HandleSwitch(Count(m), e, 0);
    } else {
      ZeroElsewhere(m, e);
    }
  }
}
