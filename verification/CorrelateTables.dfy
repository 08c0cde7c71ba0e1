/** The correlation tables equal the history (src/correlate.rs): the effect of
    one event on one thread's entries, and the resulting whole-run statements. */
module CorrelateTables {
  import opened Collections
  import opened GraphTypes
  import opened Events
  import opened CorrelateSpec
  import opened CorrelateBooks
  import opened CorrelateHistory

  // ---------- the tables after a switch ----------

  lemma ResolveTables(m: Machine, e: WperfEvent, thresholdNs: nat)
    ensures var s := ResolvePrev(m, e, thresholdNs);
            && s.offCpu == m.offCpu && s.futex == m.futex && s.io == m.io
            && s.pending == if e.prevTid != 0 then m.pending - {e.prevTid} else m.pending
  {
    assert e.prevTid !in m.pending ==> m.pending - {e.prevTid} == m.pending;
  }

  predicate Blocks(e: WperfEvent) {
    e.prevState != TASK_RUNNING && e.prevTid != 0
  }

  function OffAfterOut(m: Machine, e: WperfEvent): map<u32, OffCpuRecord> {
    if Blocks(e) then m.offCpu[e.prevTid := OffCpuRecord(e.timestampNs, None, ConsumedWaitType(m, e))]
    else m.offCpu
  }

  lemma SwitchOutTables(m: Machine, e: WperfEvent)
    ensures var s := SwitchOut(m, e);
            && s.offCpu == OffAfterOut(m, e) && s.pending == m.pending && s.io == m.io
            && s.futex == if Blocks(e) then m.futex - {e.prevTid} else m.futex
  {}

  predicate Defers(offCpu: map<u32, OffCpuRecord>, e: WperfEvent) {
    e.nextTid != 0 && e.nextTid in offCpu && offCpu[e.nextTid].wakerTid.Some?
  }

  function Deferral(record: OffCpuRecord, e: WperfEvent, t: u32): PendingEdge
    requires record.wakerTid.Some?
  {
    PendingEdge(e.timestampNs, ThreadId(t), ThreadId(record.wakerTid.value),
                WaitWindow(record.switchOutNs, e.timestampNs), record.waitType)
  }

  lemma SwitchInTables(m: Machine, e: WperfEvent)
    ensures var s := SwitchIn(m, e);
            && s.offCpu == (if e.nextTid != 0 then m.offCpu - {e.nextTid} else m.offCpu)
            && s.futex == m.futex && s.io == m.io
            && s.pending == if Defers(m.offCpu, e)
                            then m.pending[e.nextTid := Deferral(m.offCpu[e.nextTid], e, e.nextTid)]
                            else m.pending
  {
    assert e.nextTid !in m.offCpu ==> m.offCpu - {e.nextTid} == m.offCpu;
  }

  function PendingAfterResolve(m: Machine, e: WperfEvent): map<u32, PendingEdge> {
    if e.prevTid != 0 then m.pending - {e.prevTid} else m.pending
  }

  lemma SwitchTables(m: Machine, e: WperfEvent, thresholdNs: nat)
    ensures var s := HandleSwitch(m, e, thresholdNs);
            var off := OffAfterOut(m, e);
            && s.offCpu == (if e.nextTid != 0 then off - {e.nextTid} else off)
            && s.futex == (if Blocks(e) then m.futex - {e.prevTid} else m.futex)
            && s.io == m.io
            && s.pending == if Defers(off, e)
                            then PendingAfterResolve(m, e)[e.nextTid := Deferral(off[e.nextTid], e, e.nextTid)]
                            else PendingAfterResolve(m, e)
  {
    var m1 := ResolvePrev(m, e, thresholdNs);
    ResolveTables(m, e, thresholdNs);
    assert ConsumedWaitType(m1, e) == ConsumedWaitType(m, e);
    SwitchOutTables(m1, e);
    SwitchInTables(SwitchOut(m1, e), e);
  }

  // ---------- one event, one thread ----------

  ghost predicate OffStep(m: Machine, e: WperfEvent, t: u32, after: map<u32, OffCpuRecord>) {
    && (t in after <==> !ComesIn(e, t) && !Exits(e, t) && (BlocksOut(e, t) || t in m.offCpu))
    && (t in after ==>
          if BlocksOut(e, t) then after[t] == OffCpuRecord(e.timestampNs, None, ConsumedWaitType(m, e))
          else if Wakes(e, t) then after[t] == m.offCpu[t].(wakerTid := Some(e.prevTid))
          else after[t] == m.offCpu[t])
  }

  lemma OffAtSwitch(m: Machine, e: WperfEvent, thresholdNs: nat, t: u32)
    requires 0 !in m.offCpu && e.Kind() == Some(Switch)
    ensures OffStep(m, e, t, Step(m, e, thresholdNs).offCpu)
  {
    SwitchTables(Count(m), e, thresholdNs);
    assert ConsumedWaitType(Count(m), e) == ConsumedWaitType(m, e);
  }

  lemma OffAtWakeup(m: Machine, e: WperfEvent, t: u32)
    requires e.Kind() == Some(Wakeup) || e.Kind() == Some(WakeupNew)
    ensures OffStep(m, e, t, HandleWakeup(Count(m), e).offCpu)
  {}

  lemma OffAtExit(m: Machine, e: WperfEvent, t: u32)
    requires e.Kind() == Some(Exit)
    ensures OffStep(m, e, t, HandleExit(Count(m), e).offCpu)
  {
    assert HandleExit(Count(m), e).offCpu == m.offCpu - {e.tid};
  }

  /** Futex, I/O and unknown events leave both thread tables alone. */
  lemma ThreadTablesStay(m: Machine, e: WperfEvent, thresholdNs: nat)
    requires e.Kind() in {Some(EventType.FutexWait), Some(IoIssue), Some(IoComplete), None}
    ensures Step(m, e, thresholdNs).offCpu == m.offCpu && Step(m, e, thresholdNs).pending == m.pending
  {
    match e.Kind()
    case Some(FutexWait) => assert Step(m, e, thresholdNs) == HandleFutexWait(Count(m), e);
    case Some(IoIssue) => assert Step(m, e, thresholdNs) == HandleIoIssue(Count(m), e);
    case Some(IoComplete) => assert Step(m, e, thresholdNs) == HandleIoComplete(Count(m), e);
    case _ =>
  }

  lemma StepOff(m: Machine, e: WperfEvent, thresholdNs: nat, t: u32)
    requires 0 !in m.offCpu
    ensures OffStep(m, e, t, Step(m, e, thresholdNs).offCpu)
  {
    match e.Kind()
    case Some(Switch) => OffAtSwitch(m, e, thresholdNs, t);
    case Some(Wakeup) => OffAtWakeup(m, e, t);
    case Some(WakeupNew) => OffAtWakeup(m, e, t);
    case Some(Exit) => OffAtExit(m, e, t);
    case _ => ThreadTablesStay(m, e, thresholdNs);
  }

  ghost predicate FutexStep(m: Machine, e: WperfEvent, t: u32, after: map<u32, PendingFutex>) {
    && (t in after <==> !BlocksOut(e, t) && !Exits(e, t) && (EntersFutex(e, t) || t in m.futex))
    && (t in after ==>
          if EntersFutex(e, t) then after[t] == PendingFutex(e.timestampNs, FutexWaitType(e.FutexOp()))
          else after[t] == m.futex[t])
  }

  lemma FutexAtSwitch(m: Machine, e: WperfEvent, thresholdNs: nat, t: u32)
    requires e.Kind() == Some(Switch)
    ensures FutexStep(m, e, t, Step(m, e, thresholdNs).futex)
  {
    SwitchTables(Count(m), e, thresholdNs);
  }

  lemma FutexAtExit(m: Machine, e: WperfEvent, t: u32)
    requires e.Kind() == Some(Exit)
    ensures FutexStep(m, e, t, HandleExit(Count(m), e).futex)
  {
    assert HandleExit(Count(m), e).futex == m.futex - {e.tid};
  }

  /** Wakeups, I/O and unknown events leave the futex table alone. */
  lemma FutexStays(m: Machine, e: WperfEvent, thresholdNs: nat)
    requires e.Kind() in {Some(Wakeup), Some(WakeupNew), Some(IoIssue), Some(IoComplete), None}
    ensures Step(m, e, thresholdNs).futex == m.futex
  {
    match e.Kind()
    case Some(IoIssue) => assert Step(m, e, thresholdNs) == HandleIoIssue(Count(m), e);
    case Some(IoComplete) => assert Step(m, e, thresholdNs) == HandleIoComplete(Count(m), e);
    case Some(Wakeup) => assert Step(m, e, thresholdNs) == HandleWakeup(Count(m), e);
    case Some(WakeupNew) => assert Step(m, e, thresholdNs) == HandleWakeup(Count(m), e);
    case _ =>
  }

  lemma StepFutex(m: Machine, e: WperfEvent, thresholdNs: nat, t: u32)
    ensures FutexStep(m, e, t, Step(m, e, thresholdNs).futex)
  {
    match e.Kind()
    case Some(Switch) => FutexAtSwitch(m, e, thresholdNs, t);
    case Some(Exit) => FutexAtExit(m, e, t);
    case Some(FutexWait) => assert FutexStep(m, e, t, HandleFutexWait(Count(m), e).futex);
    case _ => FutexStays(m, e, thresholdNs);
  }

  ghost predicate BringsBack(m: Machine, e: WperfEvent, t: u32) {
    ComesIn(e, t) && !BlocksOut(e, t) && t in m.offCpu && m.offCpu[t].wakerTid.Some?
  }

  ghost predicate PendingStep(m: Machine, e: WperfEvent, t: u32, after: map<u32, PendingEdge>) {
    && (t in after <==> BringsBack(m, e, t) || (!LeavesCpu(e, t) && !Exits(e, t) && t in m.pending))
    && (t in after ==>
          after[t] == if BringsBack(m, e, t) then Deferral(m.offCpu[t], e, t) else m.pending[t])
  }

  lemma PendingAtSwitch(m: Machine, e: WperfEvent, thresholdNs: nat, t: u32)
    requires 0 !in m.pending && e.Kind() == Some(Switch)
    ensures PendingStep(m, e, t, Step(m, e, thresholdNs).pending)
  {
    var c := Count(m);
    SwitchTables(c, e, thresholdNs);
    var off := OffAfterOut(c, e);
    assert ComesIn(e, t) ==> (BringsBack(m, e, t) <==> Defers(off, e));
    assert BringsBack(m, e, t) ==> off[t] == m.offCpu[t];
  }

  lemma PendingAtExit(m: Machine, e: WperfEvent, t: u32)
    requires e.Kind() == Some(Exit)
    ensures PendingStep(m, e, t, HandleExit(Count(m), e).pending)
  {
    assert HandleExit(Count(m), e).pending == m.pending - {e.tid} by {
      assert e.tid !in m.pending ==> m.pending - {e.tid} == m.pending;
    }
  }

  lemma StepPending(m: Machine, e: WperfEvent, thresholdNs: nat, t: u32)
    requires 0 !in m.pending
    ensures PendingStep(m, e, t, Step(m, e, thresholdNs).pending)
  {
    match e.Kind()
    case Some(Switch) => PendingAtSwitch(m, e, thresholdNs, t);
    case Some(Exit) => PendingAtExit(m, e, t);
    case Some(Wakeup) => assert HandleWakeup(Count(m), e).pending == m.pending;
    case Some(WakeupNew) => assert HandleWakeup(Count(m), e).pending == m.pending;
    case _ => ThreadTablesStay(m, e, thresholdNs);
  }

  ghost predicate IoStep(m: Machine, e: WperfEvent, key: IoKey, after: map<IoKey, PendingIo>) {
    && (key in after <==> if TouchesIo(e, key) then e.Kind() == Some(IoIssue) else key in m.io)
    && (key in after ==>
          after[key] == if TouchesIo(e, key) then PendingIo(e.pid, e.tid, e.timestampNs) else m.io[key])
  }

  lemma IoAtSwitch(m: Machine, e: WperfEvent, thresholdNs: nat, key: IoKey)
    requires e.Kind() == Some(Switch)
    ensures IoStep(m, e, key, Step(m, e, thresholdNs).io)
  {
    SwitchTables(Count(m), e, thresholdNs);
  }

  /** Thread events and unknown ones leave the requests alone. */
  lemma RequestsStay(m: Machine, e: WperfEvent, thresholdNs: nat)
    requires e.Kind() in {Some(Wakeup), Some(WakeupNew), Some(Exit), Some(EventType.FutexWait), None}
    ensures Step(m, e, thresholdNs).io == m.io
  {
    match e.Kind()
    case Some(Exit) => assert Step(m, e, thresholdNs) == HandleExit(Count(m), e);
    case Some(FutexWait) => assert Step(m, e, thresholdNs) == HandleFutexWait(Count(m), e);
    case Some(Wakeup) => assert Step(m, e, thresholdNs) == HandleWakeup(Count(m), e);
    case Some(WakeupNew) => assert Step(m, e, thresholdNs) == HandleWakeup(Count(m), e);
    case _ =>
  }

  lemma StepIo(m: Machine, e: WperfEvent, thresholdNs: nat, key: IoKey)
    ensures IoStep(m, e, key, Step(m, e, thresholdNs).io)
  {
    match e.Kind()
    case Some(Switch) => IoAtSwitch(m, e, thresholdNs, key);
    case Some(IoIssue) => assert IoStep(m, e, key, HandleIoIssue(Count(m), e).io);
    case Some(IoComplete) => assert IoStep(m, e, key, HandleIoComplete(Count(m), e).io);
    case _ => RequestsStay(m, e, thresholdNs);
  }

  // ---------- table entries computed from the history ----------

  ghost function WakerOf(h: seq<WperfEvent>, t: u32, i: nat): Option<u32> {
    WakeIndexInRange(h, t, i);
    match WakeIndex(h, t, i)
    case Some(k) => Some(h[k].prevTid)
    case None => None
  }

  lemma {:induction false} FutexIndexInRange(h: seq<WperfEvent>, t: u32)
    ensures FutexIndex(h, t).Some? ==> FutexIndex(h, t).value < |h|
  {
    if h != [] {
      FutexIndexInRange(h[..|h| - 1], t);
    }
  }

  ghost function FutexOf(h: seq<WperfEvent>, t: u32): Option<PendingFutex> {
    FutexIndexInRange(h, t);
    match FutexIndex(h, t)
    case Some(f) => Some(PendingFutex(h[f].timestampNs, FutexWaitType(h[f].FutexOp())))
    case None => None
  }

  /** The futex reason of a thread that blocks at time `atNs` after `h`. */
  ghost function WaitTypeAfter(h: seq<WperfEvent>, t: u32, atNs: u64): Option<WaitType> {
    match FutexOf(h, t)
    case Some(pf) =>
      if SatSub(atNs, pf.timestampNs) <= FUTEX_CORRELATION_WINDOW_NS then Some(pf.waitType) else None
    case None => None
  }

  ghost function RecordAt(h: seq<WperfEvent>, t: u32, i: nat): OffCpuRecord
    requires i < |h|
  {
    OffCpuRecord(h[i].timestampNs, WakerOf(h, t, i), WaitTypeAfter(h[..i], t, h[i].timestampNs))
  }

  lemma {:induction false} IoIndexInRange(h: seq<WperfEvent>, key: IoKey)
    ensures IoIndex(h, key).Some? ==> IoIndex(h, key).value < |h|
  {
    if h != [] {
      IoIndexInRange(h[..|h| - 1], key);
    }
  }

  lemma {:induction false} FutexTableEntry(h: seq<WperfEvent>, thresholdNs: nat, t: u32)
    ensures var m := Run(h, thresholdNs);
            FutexOf(h, t) == if t in m.futex then Some(m.futex[t]) else None
  {
    if h != [] {
      var n := |h| - 1;
      FutexTableEntry(h[..n], thresholdNs, t);
      FutexIndexInRange(h[..n], t);
      StepFutex(Run(h[..n], thresholdNs), h[n], thresholdNs, t);
    }
  }

  lemma {:induction false} OffTableEntry(h: seq<WperfEvent>, thresholdNs: nat, t: u32)
    ensures var m := Run(h, thresholdNs);
            && (t in m.offCpu <==> OffIndex(h, t).Some?)
            && (t in m.offCpu ==> OffIndex(h, t).value < |h|
                                  && m.offCpu[t] == RecordAt(h, t, OffIndex(h, t).value))
  {
    OffIndexInRange(h, t);
    if h != [] {
      var n := |h| - 1;
      var p, e := h[..n], h[n];
      var m := Run(p, thresholdNs);
      OffTableEntry(p, thresholdNs, t);
      OffIndexInRange(p, t);
      RunKeepsDeferred(p, thresholdNs);
      StepOff(m, e, thresholdNs, t);
      FutexTableEntry(p, thresholdNs, t);
      if OffIndex(h, t).Some? {
        var i := OffIndex(h, t).value;
        assert p[..i] == h[..i];
        WakeIndexInRange(p, t, i);
      }
    }
  }

  /** Entry of the deferred-edge table for an episode that ends at `j`. */
  ghost function DeferralAt(h: seq<WperfEvent>, t: u32, j: nat): PendingEdge
    requires j < |h| && Resumes(h[..j], h[j], t)
  {
    var p := h[..j];
    OffIndexInRange(p, t);
    var i := OffIndex(p, t).value;
    WakeIndexInRange(p, t, i);
    Deferral(RecordAt(p, t, i), h[j], t)
  }

  lemma {:induction false} PendingTableEntry(h: seq<WperfEvent>, thresholdNs: nat, t: u32)
    ensures var m := Run(h, thresholdNs);
            && (t in m.pending <==> PendIndex(h, t).Some?)
            && (t in m.pending ==>
                  var j := PendIndex(h, t).value;
                  && j < |h| && Resumes(h[..j], h[j], t)
                  && m.pending[t] == DeferralAt(h, t, j))
  {
    PendIndexInRange(h, t);
    if h != [] {
      var n := |h| - 1;
      var p, e := h[..n], h[n];
      PendingTableEntry(p, thresholdNs, t);
      PendIndexInRange(p, t);
      RunKeepsDeferred(p, thresholdNs);
      OffTableEntry(p, thresholdNs, t);
      StepPending(Run(p, thresholdNs), e, thresholdNs, t);
      assert BringsBack(Run(p, thresholdNs), e, t) <==> Resumes(p, e, t) by {
        if OffIndex(p, t).Some? {
          WakeIndexInRange(p, t, OffIndex(p, t).value);
        }
      }
      if PendIndex(p, t).Some? {
        var j := PendIndex(p, t).value;
        assert p[..j] == h[..j];
      }
    }
  }

  lemma {:induction false} IoTableEntry(h: seq<WperfEvent>, thresholdNs: nat, key: IoKey)
    ensures var m := Run(h, thresholdNs);
            && (key in m.io <==> IoIndex(h, key).Some?)
            && (key in m.io ==>
                  var i := IoIndex(h, key).value;
                  i < |h| && m.io[key] == PendingIo(h[i].pid, h[i].tid, h[i].timestampNs))
  {
    IoIndexInRange(h, key);
    if h != [] {
      var n := |h| - 1;
      IoTableEntry(h[..n], thresholdNs, key);
      IoIndexInRange(h[..n], key);
      StepIo(Run(h[..n], thresholdNs), h[n], thresholdNs, key);
    }
  }
}
