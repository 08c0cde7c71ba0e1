/** What every run of the correlation machine keeps: nothing deferred is
    overwritten, and the counters balance (src/correlate.rs). */
module CorrelateBooks {
  import opened Collections
  import opened GraphTypes
  import opened Events
  import opened CorrelateSpec

  // ---------- deferred state ----------

  /** No thread is off-CPU and has a deferred edge at once; the idle thread has
      neither; a deferred edge belongs to the thread that keys it. */
  ghost predicate Deferred(m: Machine) {
    && (forall t | t in m.pending :: t !in m.offCpu)
    && 0 !in m.pending && 0 !in m.offCpu
    && (forall t | t in m.pending :: m.pending[t].src == ThreadId(t) && m.pending[t].dst.id >= 0)
  }

  lemma ResolveKeepsDeferred(m: Machine, e: WperfEvent, thresholdNs: nat)
    requires Deferred(m)
    ensures Deferred(ResolvePrev(m, e, thresholdNs))
    ensures e.prevTid != 0 ==> e.prevTid !in ResolvePrev(m, e, thresholdNs).pending
  {}

  lemma SwitchOutKeepsDeferred(m: Machine, e: WperfEvent)
    requires Deferred(m) && (e.prevTid != 0 ==> e.prevTid !in m.pending)
    ensures Deferred(SwitchOut(m, e))
  {}

  lemma SwitchInKeepsDeferred(m: Machine, e: WperfEvent)
    requires Deferred(m)
    ensures Deferred(SwitchIn(m, e))
  {}

  lemma SwitchKeepsDeferred(m: Machine, e: WperfEvent, thresholdNs: nat)
    requires Deferred(m)
    ensures Deferred(HandleSwitch(m, e, thresholdNs))
  {
    ResolveKeepsDeferred(m, e, thresholdNs);
    SwitchOutKeepsDeferred(ResolvePrev(m, e, thresholdNs), e);
    SwitchInKeepsDeferred(SwitchOut(ResolvePrev(m, e, thresholdNs), e), e);
  }

  lemma WakeupKeepsDeferred(m: Machine, e: WperfEvent)
    requires Deferred(m)
    ensures Deferred(HandleWakeup(m, e))
  {}

  lemma ExitKeepsDeferred(m: Machine, e: WperfEvent)
    requires Deferred(m)
    ensures Deferred(HandleExit(m, e))
  {}

  lemma StepKeepsDeferred(m: Machine, e: WperfEvent, thresholdNs: nat)
    requires Deferred(m)
    ensures Deferred(Step(m, e, thresholdNs))
  {
    var c := Count(m);
    match e.Kind()
    case Some(Switch) => SwitchKeepsDeferred(c, e, thresholdNs);
    case Some(Wakeup) => WakeupKeepsDeferred(c, e);
    case Some(WakeupNew) => WakeupKeepsDeferred(c, e);
    case Some(Exit) => ExitKeepsDeferred(c, e);
    case _ =>
      assert Step(m, e, thresholdNs).pending == m.pending && Step(m, e, thresholdNs).offCpu == m.offCpu;
  }

  lemma {:induction false} RunKeepsDeferred(h: seq<WperfEvent>, thresholdNs: nat)
    ensures Deferred(Run(h, thresholdNs))
  {
    if h != [] {
      RunKeepsDeferred(h[..|h| - 1], thresholdNs);
      StepKeepsDeferred(Run(h[..|h| - 1], thresholdNs), h[|h| - 1], thresholdNs);
    }
  }

  /** A switch-in that defers an edge never replaces one already deferred. */
  lemma NoPendingEdgeIsOverwritten(h: seq<WperfEvent>, e: WperfEvent, thresholdNs: nat)
    requires e.Kind() == Some(Switch)
    ensures var m := SwitchOut(ResolvePrev(Count(Run(h, thresholdNs)), e, thresholdNs), e);
            e.nextTid in m.offCpu ==> e.nextTid !in m.pending
  {
    RunKeepsDeferred(h, thresholdNs);
    var c := Count(Run(h, thresholdNs));
    ResolveKeepsDeferred(c, e, thresholdNs);
    SwitchOutKeepsDeferred(ResolvePrev(c, e, thresholdNs), e);
  }

  // ---------- shape of the edges and nodes ----------

  predicate IsSchedulerEdge(e: Edge) {
    e.src.id >= 0 && e.dst.id >= 0 && e.weight.kind == Normal
  }

  predicate IsDiskRequest(e: Edge) {
    e.src.id >= 0 && e.dst == DISK_TID && e.weight.kind == Normal && e.weight.waitType == Some(IoBlock)
  }

  predicate IsDiskReturn(e: Edge) {
    e.src == DISK_TID && e.dst.id >= 0 && e.weight.kind == SyntheticClosureReturn
    && e.weight.waitType == Some(IoBlock)
  }

  ghost predicate Shaped(es: seq<Edge>) {
    forall e | e in es ::
      && (IsSchedulerEdge(e) || IsDiskRequest(e) || IsDiskReturn(e))
      && e.weight.rawWaitMs == Duration(e.weight.window)
      && e.weight.attributedDelayMs == e.weight.rawWaitMs
  }

  /** Exactly the endpoints are nodes; only the disk is not a user thread. */
  ghost predicate NodesMatch(es: seq<Edge>, kinds: map<ThreadId, NodeKind>) {
    && (forall e | e in es :: e.src in kinds && e.dst in kinds)
    && (forall t | t in kinds :: kinds[t] == if t == DISK_TID then PseudoDisk else UserThread)
    && (forall t | t in kinds :: Touched(es, t))
  }

  ghost predicate Touched(es: seq<Edge>, t: ThreadId) {
    exists e :: e in es && (e.src == t || e.dst == t)
  }

  ghost predicate Requests(es: seq<Edge>, t: ThreadId) {
    exists e :: e in es && e.src == t && e.dst == DISK_TID
  }

  ghost predicate Returns(es: seq<Edge>, t: ThreadId) {
    exists e :: e in es && e.src == DISK_TID && e.dst == t
  }

  /** Every requester is answered and every answer was requested. */
  ghost predicate DiskPaired(es: seq<Edge>) {
    forall t :: Requests(es, t) <==> Returns(es, t)
  }

  ghost predicate WellBuilt(m: Machine) {
    Shaped(m.edges) && NodesMatch(m.edges, m.kinds) && DiskPaired(m.edges)
  }

  /** Adding an edge together with its endpoint nodes. */
  lemma NodesMatchSnoc(es: seq<Edge>, kinds: map<ThreadId, NodeKind>, e: Edge,
                       srcKind: NodeKind, dstKind: NodeKind)
    requires NodesMatch(es, kinds)
    requires srcKind == if e.src == DISK_TID then PseudoDisk else UserThread
    requires dstKind == if e.dst == DISK_TID then PseudoDisk else UserThread
    ensures NodesMatch(es + [e], WithNode(WithNode(kinds, e.src, srcKind), e.dst, dstKind))
  {
    var more := es + [e];
    assert e in more;
    assert forall t | Touched(es, t) :: Touched(more, t);
  }

  lemma PairedByThreadEdge(es: seq<Edge>, e: Edge)
    requires DiskPaired(es) && e.src != DISK_TID && e.dst != DISK_TID
    ensures DiskPaired(es + [e])
  {
    var more := es + [e];
    forall t ensures Requests(more, t) <==> Returns(more, t) {
      assert Requests(more, t) <==> Requests(es, t);
      assert Returns(more, t) <==> Returns(es, t);
    }
  }

  lemma PairedByPair(es: seq<Edge>, a: Edge, b: Edge)
    requires DiskPaired(es) && a.src != DISK_TID && a.dst == DISK_TID && b.src == DISK_TID && b.dst == a.src
    ensures DiskPaired(es + [a, b])
  {
    var more := es + [a, b];
    assert a in more && b in more;
    forall t ensures Requests(more, t) <==> Returns(more, t) {
      assert Requests(more, t) <==> Requests(es, t) || t == a.src;
      assert Returns(more, t) <==> Returns(es, t) || t == b.dst;
    }
  }

  lemma CommitKeepsBuilt(m: Machine, pe: PendingEdge)
    requires WellBuilt(m) && pe.src.id >= 0 && pe.dst.id >= 0
    ensures WellBuilt(Commit(m, pe))
  {
    NodesMatchSnoc(m.edges, m.kinds, SchedulerEdge(pe), UserThread, UserThread);
    PairedByThreadEdge(m.edges, SchedulerEdge(pe));
  }

  lemma CommitPendingKeepsBuilt(m: Machine, tid: u32)
    requires WellBuilt(m) && Deferred(m)
    ensures WellBuilt(CommitPending(m, tid))
  {
    if tid in m.pending {
      CommitKeepsBuilt(m.(pending := m.pending - {tid}), m.pending[tid]);
    }
  }

  lemma CompleteKeepsBuilt(m: Machine, e: WperfEvent)
    requires WellBuilt(m)
    ensures WellBuilt(HandleIoComplete(m, e))
  {
    if KeyOf(e) in m.io {
      var (a, b) := IoPair(m.io[KeyOf(e)], e);
      NodesMatchSnoc(m.edges, m.kinds, a, UserThread, PseudoDisk);
      NodesMatchSnoc(m.edges + [a], HandleIoComplete(m, e).kinds, b, PseudoDisk, UserThread);
      assert m.edges + [a, b] == m.edges + [a] + [b];
      PairedByPair(m.edges, a, b);
    }
  }

  /** Going off and coming on add neither edges nor nodes. */
  lemma SwitchOutInFrame(m: Machine, e: WperfEvent)
    ensures SwitchOut(m, e).edges == m.edges && SwitchOut(m, e).kinds == m.kinds
    ensures SwitchIn(m, e).edges == m.edges && SwitchIn(m, e).kinds == m.kinds
  {}

  lemma SwitchKeepsBuilt(m: Machine, e: WperfEvent, thresholdNs: nat)
    requires WellBuilt(m) && Deferred(m)
    ensures WellBuilt(HandleSwitch(m, e, thresholdNs))
  {
    CommitPendingKeepsBuilt(m, e.prevTid);
    var m1 := ResolvePrev(m, e, thresholdNs);
    assert WellBuilt(m1);
    SwitchOutInFrame(m1, e);
    SwitchOutInFrame(SwitchOut(m1, e), e);
  }

  lemma ExitKeepsBuilt(m: Machine, e: WperfEvent)
    requires WellBuilt(m) && Deferred(m)
    ensures WellBuilt(HandleExit(m, e))
  {
    CommitPendingKeepsBuilt(m, e.tid);
    assert HandleExit(m, e).edges == CommitPending(m, e.tid).edges;
    assert HandleExit(m, e).kinds == CommitPending(m, e.tid).kinds;
  }

  /** The other events add neither edges nor nodes. */
  lemma GraphStays(m: Machine, e: WperfEvent, thresholdNs: nat)
    requires e.Kind() != Some(Switch) && e.Kind() != Some(Exit) && e.Kind() != Some(IoComplete)
    ensures Step(m, e, thresholdNs).edges == m.edges && Step(m, e, thresholdNs).kinds == m.kinds
  {
    match e.Kind()
    case Some(Wakeup) => assert Step(m, e, thresholdNs) == HandleWakeup(Count(m), e);
    case Some(WakeupNew) => assert Step(m, e, thresholdNs) == HandleWakeup(Count(m), e);
    case Some(FutexWait) => assert Step(m, e, thresholdNs) == HandleFutexWait(Count(m), e);
    case Some(IoIssue) => assert Step(m, e, thresholdNs) == HandleIoIssue(Count(m), e);
    case _ =>
  }

  lemma StepKeepsBuilt(m: Machine, e: WperfEvent, thresholdNs: nat)
    requires WellBuilt(m) && Deferred(m)
    ensures WellBuilt(Step(m, e, thresholdNs))
  {
    assert WellBuilt(Count(m)) && Deferred(Count(m));
    match e.Kind()
    case Some(Switch) => SwitchKeepsBuilt(Count(m), e, thresholdNs);
    case Some(Exit) => ExitKeepsBuilt(Count(m), e);
    case Some(IoComplete) => CompleteKeepsBuilt(Count(m), e);
    case _ => GraphStays(m, e, thresholdNs);
  }

  lemma {:induction false} RunKeepsBuilt(h: seq<WperfEvent>, thresholdNs: nat)
    ensures WellBuilt(Run(h, thresholdNs))
  {
    if h != [] {
      var init := h[..|h| - 1];
      RunKeepsBuilt(init, thresholdNs);
      RunKeepsDeferred(init, thresholdNs);
      StepKeepsBuilt(Run(init, thresholdNs), h[|h| - 1], thresholdNs);
    }
  }

  lemma {:induction false} DrainKeeps(m: Machine, order: seq<u32>)
    requires WellBuilt(m) && Deferred(m)
    ensures WellBuilt(Drain(m, order)) && Deferred(Drain(m, order))
  {
    if order != [] {
      DrainKeeps(m, order[..|order| - 1]);
      CommitPendingKeepsBuilt(Drain(m, order[..|order| - 1]), order[|order| - 1]);
    }
  }

  /** The finished graph: scheduler edges among user threads, disk requests, a
      closure return for every thread with one, and the disk the only
      pseudo-thread. */
  lemma GraphIsWellBuilt(h: seq<WperfEvent>, thresholdNs: nat, order: seq<u32>)
    ensures WellBuilt(Correlate(h, thresholdNs, order))
  {
    RunKeepsBuilt(h, thresholdNs);
    RunKeepsDeferred(h, thresholdNs);
    DrainKeeps(Run(h, thresholdNs), order);
  }

  // ---------- the books ----------

  predicate IsSwitchIn(e: WperfEvent) {
    e.Kind() == Some(Switch) && e.nextTid != 0
  }

  ghost function SwitchIns(h: seq<WperfEvent>): nat {
    if h == [] then 0
    else SwitchIns(h[..|h| - 1]) + if IsSwitchIn(h[|h| - 1]) then 1 else 0
  }

  ghost function OfKind(h: seq<WperfEvent>, k: EventType): nat {
    if h == [] then 0
    else OfKind(h[..|h| - 1], k) + if h[|h| - 1].Kind() == Some(k) then 1 else 0
  }

  /** Edges into the disk, out of the disk, and all others. */
  ghost function IntoDisk(es: seq<Edge>): nat {
    if es == [] then 0
    else IntoDisk(es[..|es| - 1]) + if es[|es| - 1].dst == DISK_TID then 1 else 0
  }

  ghost function OutOfDisk(es: seq<Edge>): nat {
    if es == [] then 0
    else OutOfDisk(es[..|es| - 1]) + if es[|es| - 1].src == DISK_TID then 1 else 0
  }

  ghost function BetweenThreads(es: seq<Edge>): nat {
    if es == [] then 0
    else BetweenThreads(es[..|es| - 1])
         + if es[|es| - 1].src != DISK_TID && es[|es| - 1].dst != DISK_TID then 1 else 0
  }

  lemma CountsAppend(es: seq<Edge>, e: Edge)
    ensures IntoDisk(es + [e]) == IntoDisk(es) + if e.dst == DISK_TID then 1 else 0
    ensures OutOfDisk(es + [e]) == OutOfDisk(es) + if e.src == DISK_TID then 1 else 0
    ensures BetweenThreads(es + [e])
         == BetweenThreads(es) + if e.src != DISK_TID && e.dst != DISK_TID then 1 else 0
  {
    assert (es + [e])[..|es|] == es;
  }

  /** Threads come on-CPU with an edge, filtered, deferred, without a waker or
      unmatched; requests end in a pair, a collision or in flight; completions
      in a pair or as orphans; every edge is counted. */
  ghost predicate Balanced(h: seq<WperfEvent>, m: Machine) {
    && m.stats.eventsProcessed == |h|
    && SwitchIns(h) == SwitchInColumn(m)
    && OfKind(h, IoIssue) == IntoDisk(m.edges) + m.stats.ioPairCollision + |m.io|
    && OfKind(h, IoComplete) == IntoDisk(m.edges) + m.stats.ioOrphanComplete
    && IntoDisk(m.edges) == OutOfDisk(m.edges)
    && m.stats.edgesCreated == |m.edges| == BetweenThreads(m.edges) + IntoDisk(m.edges) + OutOfDisk(m.edges)
  }

  lemma SizeAfterRemove<K, V>(m: map<K, V>, k: K)
    requires k in m
    ensures |m - {k}| == |m| - 1
  {
    assert (m - {k}).Keys == m.Keys - {k};
    assert |(m - {k}).Keys| == |m - {k}|;
  }

  lemma SizeAfterPut<K, V>(m: map<K, V>, k: K, v: V)
    ensures |m[k := v]| == |m| + if k in m then 0 else 1
  {
    assert m[k := v].Keys == m.Keys + {k};
    assert |m[k := v].Keys| == |m[k := v]|;
  }

  lemma CommitBooks(m: Machine, tid: u32)
    requires tid in m.pending && m.pending[tid].src.id >= 0 && m.pending[tid].dst.id >= 0
    ensures var c := CommitPending(m, tid);
            && |c.pending| == |m.pending| - 1
            && IntoDisk(c.edges) == IntoDisk(m.edges) && OutOfDisk(c.edges) == OutOfDisk(m.edges)
            && BetweenThreads(c.edges) == BetweenThreads(m.edges) + 1
            && c.stats == m.stats.(edgesCreated := m.stats.edgesCreated + 1)
            && |c.edges| == |m.edges| + 1 && c.io == m.io
  {
    SizeAfterRemove(m.pending, tid);
    CountsAppend(m.edges, SchedulerEdge(m.pending[tid]));
  }

  lemma CompleteBooks(m: Machine, e: WperfEvent)
    requires KeyOf(e) in m.io
    ensures var c := HandleIoComplete(m, e);
            && |c.io| == |m.io| - 1
            && IntoDisk(c.edges) == IntoDisk(m.edges) + 1 && OutOfDisk(c.edges) == OutOfDisk(m.edges) + 1
            && BetweenThreads(c.edges) == BetweenThreads(m.edges)
            && |c.edges| == |m.edges| + 2
  {
    SizeAfterRemove(m.io, KeyOf(e));
    var (a, b) := IoPair(m.io[KeyOf(e)], e);
    CountsAppend(m.edges, a);
    CountsAppend(m.edges + [a], b);
    assert m.edges + [a, b] == (m.edges + [a]) + [b];
  }

  /** What the switch-in column of the books must add up to. */
  ghost function SwitchInColumn(m: Machine): nat {
    BetweenThreads(m.edges) + m.stats.falseWakeupFiltered + |m.pending|
    + m.stats.switchInWithoutWaker + m.stats.unmatchedSwitchIn
  }

  /** The parts of the books that a switch leaves alone. */
  ghost predicate SameDiskBooks(m: Machine, s: Machine) {
    && IntoDisk(s.edges) == IntoDisk(m.edges) && OutOfDisk(s.edges) == OutOfDisk(m.edges)
    && s.io == m.io
    && s.stats.ioPairCollision == m.stats.ioPairCollision
    && s.stats.ioOrphanComplete == m.stats.ioOrphanComplete
    && s.stats.eventsProcessed == m.stats.eventsProcessed
    && s.stats.edgesCreated - m.stats.edgesCreated == |s.edges| - |m.edges|
    && |s.edges| - |m.edges| == BetweenThreads(s.edges) - BetweenThreads(m.edges)
  }

  lemma CommitKeepsBooks(m: Machine, tid: u32)
    requires Deferred(m)
    ensures SameDiskBooks(m, CommitPending(m, tid))
    ensures SwitchInColumn(CommitPending(m, tid)) == SwitchInColumn(m)
  {
    if tid in m.pending {
      CommitBooks(m, tid);
    }
  }

  lemma FilterKeepsBooks(m: Machine, tid: u32)
    requires tid in m.pending
    ensures var s := m.(pending := m.pending - {tid},
                        stats := m.stats.(falseWakeupFiltered := m.stats.falseWakeupFiltered + 1));
            SameDiskBooks(m, s) && SwitchInColumn(s) == SwitchInColumn(m)
  {
    SizeAfterRemove(m.pending, tid);
  }

  lemma ResolveKeepsBooks(m: Machine, e: WperfEvent, thresholdNs: nat)
    requires Deferred(m)
    ensures var s := ResolvePrev(m, e, thresholdNs);
            SameDiskBooks(m, s) && SwitchInColumn(s) == SwitchInColumn(m)
  {
    if e.prevTid in m.pending {
      CommitKeepsBooks(m, e.prevTid);
      FilterKeepsBooks(m, e.prevTid);
    }
  }

  lemma SwitchInKeepsBooks(m: Machine, e: WperfEvent)
    requires Deferred(m)
    ensures var s := SwitchIn(m, e);
            && SameDiskBooks(m, s)
            && SwitchInColumn(s) == SwitchInColumn(m) + if e.nextTid != 0 then 1 else 0
  {
    if e.nextTid in m.offCpu && m.offCpu[e.nextTid].wakerTid.Some? {
      var s := SwitchIn(m, e);
      assert e.nextTid !in m.pending;
      SizeAfterPut(m.pending, e.nextTid, s.pending[e.nextTid]);
    }
  }

  lemma SwitchOutKeepsBooks(m: Machine, e: WperfEvent)
    ensures SameDiskBooks(m, SwitchOut(m, e)) && SwitchInColumn(SwitchOut(m, e)) == SwitchInColumn(m)
  {}

  lemma SwitchKeepsBooks(m: Machine, e: WperfEvent, thresholdNs: nat)
    requires Deferred(m)
    ensures var s := HandleSwitch(m, e, thresholdNs);
            && SameDiskBooks(m, s)
            && SwitchInColumn(s) == SwitchInColumn(m) + if e.nextTid != 0 then 1 else 0
  {
    var m1 := ResolvePrev(m, e, thresholdNs);
    ResolveKeepsDeferred(m, e, thresholdNs);
    ResolveKeepsBooks(m, e, thresholdNs);
    SwitchOutKeepsDeferred(m1, e);
    SwitchOutKeepsBooks(m1, e);
    SwitchInKeepsBooks(SwitchOut(m1, e), e);
  }

  lemma HistoryCounts(h: seq<WperfEvent>, e: WperfEvent)
    ensures SwitchIns(h + [e]) == SwitchIns(h) + if IsSwitchIn(e) then 1 else 0
    ensures forall k :: OfKind(h + [e], k) == OfKind(h, k) + if e.Kind() == Some(k) then 1 else 0
  {
    assert (h + [e])[..|h|] == h;
  }

  lemma SwitchBalance(h: seq<WperfEvent>, m: Machine, e: WperfEvent, thresholdNs: nat)
    requires Balanced(h, m) && Deferred(m) && e.Kind() == Some(Switch)
    ensures Balanced(h + [e], Step(m, e, thresholdNs))
  {
    HistoryCounts(h, e);
    assert SwitchInColumn(Count(m)) == SwitchInColumn(m) && SameButCounted(m, Count(m));
    SwitchKeepsBooks(Count(m), e, thresholdNs);
    var s := HandleSwitch(Count(m), e, thresholdNs);
    assert Step(m, e, thresholdNs) == s;
    assert Balanced(h + [e], s);
  }

  ghost predicate SameButCounted(m: Machine, c: Machine) {
    c == m.(stats := m.stats.(eventsProcessed := m.stats.eventsProcessed + 1))
  }

  lemma ExitBalance(h: seq<WperfEvent>, m: Machine, e: WperfEvent, thresholdNs: nat)
    requires Balanced(h, m) && Deferred(m) && e.Kind() == Some(Exit)
    ensures Balanced(h + [e], Step(m, e, thresholdNs))
  {
    HistoryCounts(h, e);
    var c := Count(m);
    CommitKeepsBooks(c, e.tid);
    var d := CommitPending(c, e.tid);
    var s := HandleExit(c, e);
    assert SwitchInColumn(s) == SwitchInColumn(d) && s.edges == d.edges && s.io == d.io && s.stats == d.stats;
    assert Balanced(h + [e], s);
  }

  lemma IssueBalance(h: seq<WperfEvent>, m: Machine, e: WperfEvent, thresholdNs: nat)
    requires Balanced(h, m) && e.Kind() == Some(IoIssue)
    ensures Balanced(h + [e], Step(m, e, thresholdNs))
  {
    HistoryCounts(h, e);
    SizeAfterPut(m.io, KeyOf(e), PendingIo(e.pid, e.tid, e.timestampNs));
    var s := HandleIoIssue(Count(m), e);
    assert Step(m, e, thresholdNs) == s;
    assert SwitchInColumn(s) == SwitchInColumn(m) && s.edges == m.edges;
  }

  lemma CompleteBalance(h: seq<WperfEvent>, m: Machine, e: WperfEvent, thresholdNs: nat)
    requires Balanced(h, m) && e.Kind() == Some(IoComplete)
    ensures Balanced(h + [e], Step(m, e, thresholdNs))
  {
    HistoryCounts(h, e);
    var c := Count(m);
    if KeyOf(e) in c.io {
      CompleteBooks(c, e);
    }
    var s := HandleIoComplete(c, e);
    assert Step(m, e, thresholdNs) == s;
    assert s.pending == m.pending;
  }

  /** Nothing the books look at has moved, except the event counter. */
  ghost predicate Quiet(m: Machine, s: Machine) {
    && s.edges == m.edges && s.io == m.io && s.pending == m.pending
    && s.stats == m.stats.(eventsProcessed := m.stats.eventsProcessed + 1,
                           unmatchedWakeup := s.stats.unmatchedWakeup,
                           unknownEventType := s.stats.unknownEventType)
  }

  lemma OtherIsQuiet(m: Machine, e: WperfEvent, thresholdNs: nat)
    requires e.Kind() !in {Some(Switch), Some(Exit), Some(IoIssue), Some(IoComplete)}
    ensures Quiet(m, Step(m, e, thresholdNs))
  {
    var c := Count(m);
    match e.Kind()
    case Some(Wakeup) => assert Quiet(m, HandleWakeup(c, e));
    case Some(WakeupNew) => assert Quiet(m, HandleWakeup(c, e));
    case Some(FutexWait) => assert Quiet(m, HandleFutexWait(c, e));
    case _ =>
  }

  lemma QuietBalance(h: seq<WperfEvent>, m: Machine, e: WperfEvent, s: Machine)
    requires Balanced(h, m) && Quiet(m, s)
    requires e.Kind() !in {Some(Switch), Some(Exit), Some(IoIssue), Some(IoComplete)}
    ensures Balanced(h + [e], s)
  {
    HistoryCounts(h, e);
  }

  lemma StepKeepsBalance(h: seq<WperfEvent>, m: Machine, e: WperfEvent, thresholdNs: nat)
    requires Balanced(h, m) && Deferred(m)
    ensures Balanced(h + [e], Step(m, e, thresholdNs))
  {
    match e.Kind()
    case Some(Switch) => SwitchBalance(h, m, e, thresholdNs);
    case Some(Exit) => ExitBalance(h, m, e, thresholdNs);
    case Some(IoIssue) => IssueBalance(h, m, e, thresholdNs);
    case Some(IoComplete) => CompleteBalance(h, m, e, thresholdNs);
    case _ =>
      OtherIsQuiet(m, e, thresholdNs);
      QuietBalance(h, m, e, Step(m, e, thresholdNs));
  }

  lemma BalanceGrows(h: seq<WperfEvent>, e: WperfEvent, thresholdNs: nat)
    requires Balanced(h, Run(h, thresholdNs))
    ensures Balanced(h + [e], Run(h + [e], thresholdNs))
  {
    RunKeepsDeferred(h, thresholdNs);
    StepKeepsBalance(h, Run(h, thresholdNs), e, thresholdNs);
    assert (h + [e])[..|h|] == h;
  }

  lemma {:induction false} RunBalances(h: seq<WperfEvent>, thresholdNs: nat)
    ensures Balanced(h, Run(h, thresholdNs))
  {
    if h != [] {
      var init, e := h[..|h| - 1], h[|h| - 1];
      RunBalances(init, thresholdNs);
      BalanceGrows(init, e, thresholdNs);
      InitLast(h);
    }
  }

  /** What draining `order` leaves in the table. */
  ghost predicate Drained(m: Machine, order: seq<u32>, d: Machine) {
    forall t :: t in d.pending <==> t in m.pending && t !in order
  }

  lemma {:induction false} DrainLeaves(m: Machine, order: seq<u32>)
    requires Deferred(m)
    ensures Deferred(Drain(m, order)) && Drained(m, order, Drain(m, order))
  {
    if order != [] {
      var init, t := order[..|order| - 1], order[|order| - 1];
      assert order == init + [t];
      DrainLeaves(m, init);
    }
  }

  lemma {:induction false} DrainBooks(m: Machine, order: seq<u32>)
    requires Deferred(m) && Distinct(order)
    requires forall t | t in order :: t in m.pending
    ensures var d := Drain(m, order);
            && IntoDisk(d.edges) == IntoDisk(m.edges) && OutOfDisk(d.edges) == OutOfDisk(m.edges)
            && BetweenThreads(d.edges) == BetweenThreads(m.edges) + |order|
            && d.stats == m.stats.(edgesCreated := m.stats.edgesCreated + |order|)
            && |d.edges| == |m.edges| + |order| && |d.pending| == |m.pending| - |order| && d.io == m.io
  {
    if order != [] {
      var init, t := order[..|order| - 1], order[|order| - 1];
      assert forall x | x in init :: x in order;
      DrainBooks(m, init);
      DrainLeaves(m, init);
      assert t in order && t !in init;
      CommitBooks(Drain(m, init), t);
    }
  }

  /** The balance of a whole correlation, in terms of what it reports. */
  lemma FinalBalance(h: seq<WperfEvent>, thresholdNs: nat, order: seq<u32>)
    requires Enumerates(order, Run(h, thresholdNs).pending.Keys)
    ensures var m := Correlate(h, thresholdNs, order);
            && m.pending == map[]
            && SwitchIns(h) == BetweenThreads(m.edges) + m.stats.falseWakeupFiltered
                               + m.stats.switchInWithoutWaker + m.stats.unmatchedSwitchIn
            && OfKind(h, IoIssue) == IntoDisk(m.edges) + m.stats.ioPairCollision + m.stats.ioPendingAtEnd
            && OfKind(h, IoComplete) == IntoDisk(m.edges) + m.stats.ioOrphanComplete
            && m.stats.edgesCreated == |m.edges| == BetweenThreads(m.edges) + 2 * IntoDisk(m.edges)
  {
    RunBalances(h, thresholdNs);
    RunKeepsDeferred(h, thresholdNs);
    DrainBooks(Run(h, thresholdNs), order);
    DrainLeaves(Run(h, thresholdNs), order);
    assert Drain(Run(h, thresholdNs), order).pending == map[];
  }
}
