/** The correlation state machine as a function of one event
    (src/correlate.rs). */
module CorrelateSpec {
  import opened Collections
  import opened GraphTypes
  import opened Events

  const TASK_RUNNING: u8 := 0
  const FUTEX_CORRELATION_WINDOW_NS: nat := 1_000_000
  const NS_PER_MS: nat := 1_000_000

  datatype OffCpuRecord = OffCpuRecord(switchOutNs: u64, wakerTid: Option<u32>, waitType: Option<WaitType>)

  datatype PendingFutex = PendingFutex(timestampNs: u64, waitType: WaitType)

  datatype PendingEdge = PendingEdge(
    switchInNs: u64,
    src: ThreadId,
    dst: ThreadId,
    window: TimeWindow,
    waitType: Option<WaitType>)

  datatype IoKey = IoKey(dev: u32, sector: u64, nrSector: u32)

  datatype PendingIo = PendingIo(submitterTgid: u32, submitterTid: u32, issueTsNs: u64)

  datatype CorrelationStats = CorrelationStats(
    eventsProcessed: nat,
    edgesCreated: nat,
    unmatchedWakeup: nat,
    unmatchedSwitchIn: nat,
    switchInWithoutWaker: nat,
    falseWakeupFiltered: nat,
    unknownEventType: nat,
    ioOrphanComplete: nat,
    ioPendingAtEnd: nat,
    ioPairCollision: nat)

  const NO_STATS := CorrelationStats(0, 0, 0, 0, 0, 0, 0, 0, 0, 0)

  /** Everything the event loop carries from one event to the next. */
  datatype Machine = Machine(
    offCpu: map<u32, OffCpuRecord>,
    futex: map<u32, PendingFutex>,
    pending: map<u32, PendingEdge>,
    io: map<IoKey, PendingIo>,
    edges: seq<Edge>,
    kinds: map<ThreadId, NodeKind>,
    stats: CorrelationStats)

  const INITIAL := Machine(map[], map[], map[], map[], [], map[], NO_STATS)

  function FutexWaitType(op: u32): WaitType {
    match op
    case 0 => WaitType.FutexWait
    case 6 => WaitType.FutexLockPi
    case 9 => WaitType.FutexWaitBitset
    case 11 => WaitType.FutexWaitRequeuePi
    case _ => WaitType.Unknown
  }

  function KeyOf(e: WperfEvent): IoKey {
    IoKey(e.IoDev(), e.IoSector(), e.IoNrSector())
  }

  function WithNode(kinds: map<ThreadId, NodeKind>, t: ThreadId, kind: NodeKind): map<ThreadId, NodeKind> {
    if t in kinds then kinds else kinds[t := kind]
  }

  function SchedulerEdge(pe: PendingEdge): Edge {
    Edge(pe.src, pe.dst, NewWeight(pe.window, pe.waitType, Normal))
  }

  /** `add_edge_from_pending`. */
  function Commit(m: Machine, pe: PendingEdge): Machine {
    m.(edges := m.edges + [SchedulerEdge(pe)],
       kinds := WithNode(WithNode(m.kinds, pe.src, UserThread), pe.dst, UserThread),
       stats := m.stats.(edgesCreated := m.stats.edgesCreated + 1))
  }

  /** `commit_pending_edge`. */
  function CommitPending(m: Machine, tid: u32): Machine {
    if tid in m.pending then Commit(m.(pending := m.pending - {tid}), m.pending[tid]) else m
  }

  /** First part of a switch: the spurious-wakeup check for the thread leaving. */
  function ResolvePrev(m: Machine, e: WperfEvent, thresholdNs: nat): Machine {
    if e.prevTid != 0 && e.prevTid in m.pending then
      var pe := m.pending[e.prevTid];
      if e.prevState != TASK_RUNNING && SatSub(e.timestampNs, pe.switchInNs) < thresholdNs then
        m.(pending := m.pending - {e.prevTid},
           stats := m.stats.(falseWakeupFiltered := m.stats.falseWakeupFiltered + 1))
      else CommitPending(m, e.prevTid)
    else m
  }

  function ConsumedWaitType(m: Machine, e: WperfEvent): Option<WaitType> {
    if e.prevTid in m.futex
       && SatSub(e.timestampNs, m.futex[e.prevTid].timestampNs) <= FUTEX_CORRELATION_WINDOW_NS
    then Some(m.futex[e.prevTid].waitType)
    else None
  }

  /** Second part: a thread that blocks enters the off-CPU table. */
  function SwitchOut(m: Machine, e: WperfEvent): Machine {
    if e.prevState != TASK_RUNNING && e.prevTid != 0 then
      m.(futex := m.futex - {e.prevTid},
         offCpu := m.offCpu[e.prevTid := OffCpuRecord(e.timestampNs, None, ConsumedWaitType(m, e))])
    else m
  }

  function WaitWindow(outNs: u64, inNs: u64): TimeWindow {
    var startMs := outNs / NS_PER_MS;
    Span(startMs, startMs + SatSub(inNs, outNs) / NS_PER_MS)
  }

  /** Third part: a thread that comes back defers the edge to its waker. */
  function SwitchIn(m: Machine, e: WperfEvent): Machine {
    if e.nextTid == 0 then m
    else if e.nextTid in m.offCpu then
      var record := m.offCpu[e.nextTid];
      var m' := m.(offCpu := m.offCpu - {e.nextTid});
      match record.wakerTid
      case Some(waker) =>
        m'.(pending := m.pending[e.nextTid :=
              PendingEdge(e.timestampNs, ThreadId(e.nextTid), ThreadId(waker),
                          WaitWindow(record.switchOutNs, e.timestampNs), record.waitType)])
      case None =>
        m'.(stats := m.stats.(switchInWithoutWaker := m.stats.switchInWithoutWaker + 1))
    else m.(stats := m.stats.(unmatchedSwitchIn := m.stats.unmatchedSwitchIn + 1))
  }

  function HandleSwitch(m: Machine, e: WperfEvent, thresholdNs: nat): Machine {
    SwitchIn(SwitchOut(ResolvePrev(m, e, thresholdNs), e), e)
  }

  function HandleWakeup(m: Machine, e: WperfEvent): Machine {
    if e.prevTid == 0 then m
    else if e.nextTid in m.offCpu then
      m.(offCpu := m.offCpu[e.nextTid := m.offCpu[e.nextTid].(wakerTid := Some(e.prevTid))])
    else m.(stats := m.stats.(unmatchedWakeup := m.stats.unmatchedWakeup + 1))
  }

  function HandleExit(m: Machine, e: WperfEvent): Machine {
    var m' := CommitPending(m, e.tid);
    m'.(offCpu := m'.offCpu - {e.tid}, futex := m'.futex - {e.tid})
  }

  function HandleFutexWait(m: Machine, e: WperfEvent): Machine {
    m.(futex := m.futex[e.tid := PendingFutex(e.timestampNs, FutexWaitType(e.FutexOp()))])
  }

  function HandleIoIssue(m: Machine, e: WperfEvent): Machine {
    m.(io := m.io[KeyOf(e) := PendingIo(e.pid, e.tid, e.timestampNs)],
       stats := if KeyOf(e) in m.io
                then m.stats.(ioPairCollision := m.stats.ioPairCollision + 1)
                else m.stats)
  }

  function ServiceWindow(issueNs: u64, completeNs: u64): TimeWindow {
    var issueMs, completeMs := issueNs / NS_PER_MS, completeNs / NS_PER_MS;
    Span(issueMs, Max(completeMs, issueMs))
  }

  function RequestEdge(user: ThreadId, w: TimeWindow): Edge {
    Edge(user, DISK_TID, NewWeight(w, Some(IoBlock), Normal))
  }

  function ReturnEdge(user: ThreadId, w: TimeWindow): Edge {
    Edge(DISK_TID, user, NewWeight(w, Some(IoBlock), SyntheticClosureReturn))
  }

  /** The edge pair of a completed request: a wait for the disk, and the
      closure return that only graph analysis looks at. */
  function IoPair(p: PendingIo, e: WperfEvent): (Edge, Edge) {
    var user := ThreadId(p.submitterTid);
    var w := ServiceWindow(p.issueTsNs, e.timestampNs);
    (RequestEdge(user, w), ReturnEdge(user, w))
  }

  function HandleIoComplete(m: Machine, e: WperfEvent): Machine {
    if KeyOf(e) in m.io then
      var p := m.io[KeyOf(e)];
      m.(io := m.io - {KeyOf(e)},
         edges := m.edges + [IoPair(p, e).0, IoPair(p, e).1],
         kinds := WithNode(WithNode(m.kinds, ThreadId(p.submitterTid), UserThread), DISK_TID, PseudoDisk),
         stats := m.stats.(edgesCreated := m.stats.edgesCreated + 2))
    else m.(stats := m.stats.(ioOrphanComplete := m.stats.ioOrphanComplete + 1))
  }

  function Count(m: Machine): Machine {
    m.(stats := m.stats.(eventsProcessed := m.stats.eventsProcessed + 1))
  }

  function Dispatch(m: Machine, e: WperfEvent, thresholdNs: nat): Machine {
    match e.Kind()
    case Some(Switch) => HandleSwitch(m, e, thresholdNs)
    case Some(Wakeup) => HandleWakeup(m, e)
    case Some(WakeupNew) => HandleWakeup(m, e)
    case Some(Exit) => HandleExit(m, e)
    case Some(FutexWait) => HandleFutexWait(m, e)
    case Some(IoIssue) => HandleIoIssue(m, e)
    case Some(IoComplete) => HandleIoComplete(m, e)
    case None => m.(stats := m.stats.(unknownEventType := m.stats.unknownEventType + 1))
  }

  function Step(m: Machine, e: WperfEvent, thresholdNs: nat): Machine {
    Dispatch(Count(m), e, thresholdNs)
  }

  /** The machine after the events of `h`. */
  function Run(h: seq<WperfEvent>, thresholdNs: nat): Machine {
    if h == [] then INITIAL
    else Step(Run(h[..|h| - 1], thresholdNs), h[|h| - 1], thresholdNs)
  }

  /** Drain the leftover pending edges in some order of their threads. */
  function Drain(m: Machine, order: seq<u32>): Machine {
    if order == [] then m
    else CommitPending(Drain(m, order[..|order| - 1]), order[|order| - 1])
  }

  ghost predicate Distinct(order: seq<u32>) {
    forall i, j | 0 <= i < j < |order| :: order[i] != order[j]
  }

  ghost predicate Enumerates(order: seq<u32>, keys: set<u32>) {
    (forall t :: t in keys <==> t in order) && Distinct(order)
  }

  function Finish(m: Machine, order: seq<u32>): Machine {
    var d := Drain(m, order);
    d.(stats := d.stats.(ioPendingAtEnd := |d.io|))
  }

  function Correlate(h: seq<WperfEvent>, thresholdNs: nat, order: seq<u32>): Machine {
    Finish(Run(h, thresholdNs), order)
  }
}
