/** Every diagnostic counter of correlation as a count over the history
    (src/correlate.rs). */
module CorrelateCounters {
  import opened Collections
  import opened Events
  import opened GraphTypes
  import opened CorrelateSpec
  import opened CorrelateBooks
  import opened CorrelateHistory
  import opened CorrelateTables
  import opened CorrelateEdges
  import opened CorrelateThreshold

  datatype Counter = UnmatchedWakeup | UnmatchedSwitchIn | WithoutWaker | UnknownType | OrphanComplete | PairCollision

  function Reading(s: CorrelationStats, c: Counter): nat {
    match c
    case UnmatchedWakeup => s.unmatchedWakeup
    case UnmatchedSwitchIn => s.unmatchedSwitchIn
    case WithoutWaker => s.switchInWithoutWaker
    case UnknownType => s.unknownEventType
    case OrphanComplete => s.ioOrphanComplete
    case PairCollision => s.ioPairCollision
  }

  ghost predicate OffCpu(h: seq<WperfEvent>, t: u32) {
    exists i: nat :: OffSince(h, t, i)
  }

  ghost predicate WokenSinceOff(h: seq<WperfEvent>, t: u32) {
    exists i: nat, k: nat :: OffSince(h, t, i) && LastWakeup(h, t, i, k)
  }

  ghost predicate Outstanding(h: seq<WperfEvent>, key: IoKey) {
    exists i: nat :: InFlight(h, key, i)
  }

  /** When the event `e` after the history `h` is counted under `c`. */
  ghost predicate CountedUnder(c: Counter, h: seq<WperfEvent>, e: WperfEvent) {
    match c
    case UnmatchedWakeup => Wakes(e, e.nextTid) && !OffCpu(h, e.nextTid)
    case UnmatchedSwitchIn => IsSwitchIn(e) && !OffCpu(h, e.nextTid) && !BlocksOut(e, e.nextTid)
    case WithoutWaker =>
      IsSwitchIn(e) && (BlocksOut(e, e.nextTid) || (OffCpu(h, e.nextTid) && !WokenSinceOff(h, e.nextTid)))
    case UnknownType => e.Kind().None?
    case OrphanComplete => e.Kind() == Some(IoComplete) && !Outstanding(h, KeyOf(e))
    case PairCollision => e.Kind() == Some(IoIssue) && Outstanding(h, KeyOf(e))
  }

  ghost function TimesCounted(c: Counter, h: seq<WperfEvent>): nat {
    if h == [] then 0
    else TimesCounted(c, h[..|h| - 1]) + if CountedUnder(c, h[..|h| - 1], h[|h| - 1]) then 1 else 0
  }

  // ---------- one step ----------

  lemma ResolveReading(m: Machine, e: WperfEvent, thresholdNs: nat, c: Counter)
    ensures Reading(ResolvePrev(m, e, thresholdNs).stats, c) == Reading(m.stats, c)
  {}

  lemma SwitchInReading(m: Machine, e: WperfEvent, c: Counter)
    ensures Reading(SwitchIn(m, e).stats, c) == Reading(m.stats, c) +
            if e.nextTid == 0 then 0
            else if e.nextTid !in m.offCpu then if c == UnmatchedSwitchIn then 1 else 0
            else if m.offCpu[e.nextTid].wakerTid.None? then if c == WithoutWaker then 1 else 0
            else 0
  {}

  /** Off-CPU, in the table just before the switch-in part of `e`. */
  lemma SwitchReading(m: Machine, e: WperfEvent, thresholdNs: nat, c: Counter)
    ensures var off := OffAfterOut(m, e);
            Reading(HandleSwitch(m, e, thresholdNs).stats, c) == Reading(m.stats, c) +
            if e.nextTid == 0 then 0
            else if e.nextTid !in off then if c == UnmatchedSwitchIn then 1 else 0
            else if off[e.nextTid].wakerTid.None? then if c == WithoutWaker then 1 else 0
            else 0
  {
    var r := ResolvePrev(m, e, thresholdNs);
    ResolveReading(m, e, thresholdNs, c);
    ResolveTables(m, e, thresholdNs);
    SwitchOutTables(r, e);
    assert SwitchOut(r, e).stats == r.stats;
    SwitchInReading(SwitchOut(r, e), e, c);
  }

  lemma WakeupReading(m: Machine, e: WperfEvent, c: Counter)
    ensures Reading(HandleWakeup(m, e).stats, c) == Reading(m.stats, c) +
            if e.prevTid != 0 && e.nextTid !in m.offCpu && c == UnmatchedWakeup then 1 else 0
  {}

  lemma IoReading(m: Machine, e: WperfEvent, c: Counter)
    ensures Reading(HandleIoIssue(m, e).stats, c) == Reading(m.stats, c) +
            if KeyOf(e) in m.io && c == PairCollision then 1 else 0
    ensures Reading(HandleIoComplete(m, e).stats, c) == Reading(m.stats, c) +
            if KeyOf(e) !in m.io && c == OrphanComplete then 1 else 0
  {}

  lemma OtherReading(m: Machine, e: WperfEvent, c: Counter)
    ensures Reading(HandleExit(m, e).stats, c) == Reading(m.stats, c)
    ensures Reading(HandleFutexWait(m, e).stats, c) == Reading(m.stats, c)
    ensures Reading(Count(m).stats, c) == Reading(m.stats, c)
  {}

  // ---------- the tables as history ----------

  lemma OffCpuTable(h: seq<WperfEvent>, thresholdNs: nat, t: u32)
    ensures var off := Run(h, thresholdNs).offCpu;
            && (t in off <==> OffCpu(h, t))
            && (t in off ==> (off[t].wakerTid.Some? <==> WokenSinceOff(h, t)))
  {
    OffCpuTableIsHistory(h, thresholdNs, t);
    if OffCpu(h, t) {
      var i: nat :| OffSince(h, t, i);
      OffIndexMeaning(h, t);
      assert WokenSinceOff(h, t) <==> exists k: nat :: LastWakeup(h, t, i, k) by {
        if WokenSinceOff(h, t) {
          var a: nat, b: nat :| OffSince(h, t, a) && LastWakeup(h, t, a, b);
          assert a == i;
        }
        if k: nat :| LastWakeup(h, t, i, k) {
          assert OffSince(h, t, i) && LastWakeup(h, t, i, k);
        }
      }
    }
  }

  lemma SwitchCounted(h: seq<WperfEvent>, e: WperfEvent, thresholdNs: nat, c: Counter)
    requires e.Kind() == Some(Switch)
    ensures Reading(Step(Run(h, thresholdNs), e, thresholdNs).stats, c)
         == Reading(Run(h, thresholdNs).stats, c) + if CountedUnder(c, h, e) then 1 else 0
  {
    var m := Count(Run(h, thresholdNs));
    SwitchReading(m, e, thresholdNs, c);
    OffCpuTable(h, thresholdNs, e.nextTid);
    OtherReading(Run(h, thresholdNs), e, c);
  }

  lemma WakeupCounted(h: seq<WperfEvent>, e: WperfEvent, thresholdNs: nat, c: Counter)
    requires e.Kind() == Some(Wakeup) || e.Kind() == Some(WakeupNew)
    ensures Reading(Step(Run(h, thresholdNs), e, thresholdNs).stats, c)
         == Reading(Run(h, thresholdNs).stats, c) + if CountedUnder(c, h, e) then 1 else 0
  {
    WakeupReading(Count(Run(h, thresholdNs)), e, c);
    OffCpuTable(h, thresholdNs, e.nextTid);
    OtherReading(Run(h, thresholdNs), e, c);
  }

  lemma IoCounted(h: seq<WperfEvent>, e: WperfEvent, thresholdNs: nat, c: Counter)
    requires e.Kind() == Some(IoIssue) || e.Kind() == Some(IoComplete)
    ensures Reading(Step(Run(h, thresholdNs), e, thresholdNs).stats, c)
         == Reading(Run(h, thresholdNs).stats, c) + if CountedUnder(c, h, e) then 1 else 0
  {
    IoReading(Count(Run(h, thresholdNs)), e, c);
    IoTableIsHistory(h, thresholdNs, KeyOf(e));
    OtherReading(Run(h, thresholdNs), e, c);
  }

  lemma StepCounted(h: seq<WperfEvent>, e: WperfEvent, thresholdNs: nat, c: Counter)
    ensures Reading(Step(Run(h, thresholdNs), e, thresholdNs).stats, c)
         == Reading(Run(h, thresholdNs).stats, c) + if CountedUnder(c, h, e) then 1 else 0
  {
    OtherReading(Run(h, thresholdNs), e, c);
    OtherReading(Count(Run(h, thresholdNs)), e, c);
    match e.Kind()
    case Some(Switch) => SwitchCounted(h, e, thresholdNs, c);
    case Some(Wakeup) => WakeupCounted(h, e, thresholdNs, c);
    case Some(WakeupNew) => WakeupCounted(h, e, thresholdNs, c);
    case Some(IoIssue) => IoCounted(h, e, thresholdNs, c);
    case Some(IoComplete) => IoCounted(h, e, thresholdNs, c);
    case _ =>
  }

  lemma {:induction false} RunCounts(h: seq<WperfEvent>, thresholdNs: nat, c: Counter)
    ensures Reading(Run(h, thresholdNs).stats, c) == TimesCounted(c, h)
  {
    if h != [] {
      RunCounts(h[..|h| - 1], thresholdNs, c);
      StepCounted(h[..|h| - 1], h[|h| - 1], thresholdNs, c);
    }
  }

  lemma {:induction false} DrainReading(m: Machine, order: seq<u32>, c: Counter)
    ensures Reading(Drain(m, order).stats, c) == Reading(m.stats, c)
  {
    if order != [] {
      DrainReading(m, order[..|order| - 1], c);
    }
  }

  /** Each reported counter says how often its situation arose in the history,
      whatever the threshold and the drain order. */
  lemma CountersAreHistory(h: seq<WperfEvent>, thresholdNs: nat, order: seq<u32>, c: Counter)
    ensures Reading(Correlate(h, thresholdNs, order).stats, c) == TimesCounted(c, h)
  {
    RunCounts(h, thresholdNs, c);
    DrainReading(Run(h, thresholdNs), order, c);
  }

  // ---------- what became of the events ----------

  /** An episode's edge is kept or filtered, a completed request is paired. */
  datatype Fate = Kept | Filtered | Paired | NoEdge

  ghost function FateOf(h: seq<WperfEvent>, thresholdNs: nat, j: nat): Fate
    requires j < |h|
  {
    if Finishes(h, j) then if Spurious(h, thresholdNs, h[j].nextTid, j) then Filtered else Kept
    else if Completes(h, j) then Paired
    else NoEdge
  }

  /** How many of the first `n` events met that fate. */
  ghost function Fates(f: Fate, h: seq<WperfEvent>, thresholdNs: nat, n: nat): nat
    requires n <= |h|
  {
    if n == 0 then 0
    else Fates(f, h, thresholdNs, n - 1) + if FateOf(h, thresholdNs, n - 1) == f then 1 else 0
  }

  lemma OwedOneSize(h: seq<WperfEvent>, thresholdNs: nat, j: nat)
    requires j < |h|
    ensures |Owed(h, thresholdNs, j)|
         == match FateOf(h, thresholdNs, j) case Kept => 1 case Paired => 2 case _ => 0
  {
    if Finishes(h, j) {
    } else if Completes(h, j) {
      IoIndexInRange(h[..j], KeyOf(h[j]));
      var i := IoIndex(h[..j], KeyOf(h[j])).value;
      var pair := IoPair(PendingIo(h[i].pid, h[i].tid, h[i].timestampNs), h[j]);
      assert |multiset{pair.0, pair.1}| == 2;
    }
  }

  lemma OwedBagsSnoc(h: seq<WperfEvent>, thresholdNs: nat, n: nat)
    requires 0 < n <= |h|
    ensures SumBags(OwedBags(h, thresholdNs, n))
         == SumBags(OwedBags(h, thresholdNs, n - 1)) + Owed(h, thresholdNs, n - 1)
  {
    assert OwedBags(h, thresholdNs, n)[..n - 1] == OwedBags(h, thresholdNs, n - 1);
  }

  lemma SumSize(a: multiset<Edge>, b: multiset<Edge>)
    ensures |a + b| == |a| + |b|
  {}

  lemma {:induction false} OwedSize(h: seq<WperfEvent>, thresholdNs: nat, n: nat)
    requires n <= |h|
    ensures |SumBags(OwedBags(h, thresholdNs, n))|
         == Fates(Kept, h, thresholdNs, n) + 2 * Fates(Paired, h, thresholdNs, n)
  {
    if n > 0 {
      OwedSize(h, thresholdNs, n - 1);
      OwedOneSize(h, thresholdNs, n - 1);
      OwedBagsSnoc(h, thresholdNs, n);
      SumSize(SumBags(OwedBags(h, thresholdNs, n - 1)), Owed(h, thresholdNs, n - 1));
    }
  }

  lemma NothingSpuriousAtZero(h: seq<WperfEvent>, t: u32, j: nat)
    ensures !Spurious(h, 0, t, j)
  {}

  lemma {:induction false} FatesAtZero(h: seq<WperfEvent>, thresholdNs: nat, n: nat)
    requires n <= |h|
    ensures Fates(Kept, h, 0, n) == Fates(Kept, h, thresholdNs, n) + Fates(Filtered, h, thresholdNs, n)
    ensures Fates(Paired, h, 0, n) == Fates(Paired, h, thresholdNs, n)
  {
    if n > 0 {
      FatesAtZero(h, thresholdNs, n - 1);
      NothingSpuriousAtZero(h, h[n - 1].nextTid, n - 1);
    }
  }

  lemma CreatedAreOwed(h: seq<WperfEvent>, thresholdNs: nat, order: seq<u32>)
    requires Enumerates(order, Run(h, thresholdNs).pending.Keys)
    ensures Correlate(h, thresholdNs, order).stats.edgesCreated
         == Fates(Kept, h, thresholdNs, |h|) + 2 * Fates(Paired, h, thresholdNs, |h|)
  {
    FinalBalance(h, thresholdNs, order);
    GraphIsHistory(h, thresholdNs, order);
    OwedSize(h, thresholdNs, |h|);
    var es := Correlate(h, thresholdNs, order).edges;
    assert |multiset(es)| == |es|;
  }

  lemma {:induction false} DrainKeepsRest(m: Machine, order: seq<u32>)
    ensures var d := Drain(m, order);
            && d.io == m.io && d.stats.eventsProcessed == m.stats.eventsProcessed
            && d.stats.falseWakeupFiltered == m.stats.falseWakeupFiltered
  {
    if order != [] {
      DrainKeepsRest(m, order[..|order| - 1]);
    }
  }

  lemma FilteredAreSpurious(h: seq<WperfEvent>, thresholdNs: nat, order: seq<u32>)
    requires Enumerates(order, Run(h, thresholdNs).pending.Keys)
    ensures Correlate(h, thresholdNs, order).stats.falseWakeupFiltered == Fates(Filtered, h, thresholdNs, |h|)
  {
    RunsAreTwins(h, 0, thresholdNs);
    RaisingTheThreshold(h, 0, thresholdNs, order, order);
    ZeroFiltersNothing(h);
    DrainKeepsRest(Run(h, 0), order);
    CreatedAreOwed(h, 0, order);
    CreatedAreOwed(h, thresholdNs, order);
    FatesAtZero(h, thresholdNs, |h|);
  }

  /** Keys of the requests still in flight at the end of `h`. */
  ghost function OutstandingKeys(h: seq<WperfEvent>): set<IoKey> {
    set j | 0 <= j < |h| && InFlight(h, KeyOf(h[j]), j) :: KeyOf(h[j])
  }

  lemma InFlightKeys(h: seq<WperfEvent>, thresholdNs: nat)
    ensures Run(h, thresholdNs).io.Keys == OutstandingKeys(h)
  {
    forall key ensures key in Run(h, thresholdNs).io.Keys <==> key in OutstandingKeys(h) {
      IoTableIsHistory(h, thresholdNs, key);
      if key in Run(h, thresholdNs).io {
        var i: nat :| InFlight(h, key, i);
        assert KeyOf(h[i]) == key;
      }
    }
  }

  /** The totals: every event is processed, every episode's edge is created or
      filtered, every completed request makes two, and the rest is in flight. */
  lemma TotalsAreHistory(h: seq<WperfEvent>, thresholdNs: nat, order: seq<u32>)
    requires Enumerates(order, Run(h, thresholdNs).pending.Keys)
    ensures var s := Correlate(h, thresholdNs, order).stats;
            && s.eventsProcessed == |h|
            && s.edgesCreated == Fates(Kept, h, thresholdNs, |h|) + 2 * Fates(Paired, h, thresholdNs, |h|)
            && s.falseWakeupFiltered == Fates(Filtered, h, thresholdNs, |h|)
            && s.ioPendingAtEnd == |OutstandingKeys(h)|
  {
    RunBalances(h, thresholdNs);
    DrainKeepsRest(Run(h, thresholdNs), order);
    CreatedAreOwed(h, thresholdNs, order);
    FilteredAreSpurious(h, thresholdNs, order);
    InFlightKeys(h, thresholdNs);
  }

  /** The whole statistics record is fixed by the history. */
  lemma StatsIgnoreDrainOrder(h: seq<WperfEvent>, thresholdNs: nat, a: seq<u32>, b: seq<u32>)
    requires Enumerates(a, Run(h, thresholdNs).pending.Keys) && Enumerates(b, Run(h, thresholdNs).pending.Keys)
    ensures Correlate(h, thresholdNs, a).stats == Correlate(h, thresholdNs, b).stats
  {
    TotalsAreHistory(h, thresholdNs, a);
    TotalsAreHistory(h, thresholdNs, b);
    var s, t := Correlate(h, thresholdNs, a).stats, Correlate(h, thresholdNs, b).stats;
    forall c ensures Reading(s, c) == Reading(t, c) {
      CountersAreHistory(h, thresholdNs, a, c);
      CountersAreHistory(h, thresholdNs, b, c);
    }
    assert Reading(s, UnmatchedWakeup) == Reading(t, UnmatchedWakeup);
    assert Reading(s, UnmatchedSwitchIn) == Reading(t, UnmatchedSwitchIn);
    assert Reading(s, WithoutWaker) == Reading(t, WithoutWaker) && Reading(s, UnknownType) == Reading(t, UnknownType);
    assert Reading(s, OrphanComplete) == Reading(t, OrphanComplete);
    assert Reading(s, PairCollision) == Reading(t, PairCollision);
  }
}
