/** Which edges a correlation produces, read off the event history: one per
    finished wait episode that is not filtered, two per completed disk request
    (src/correlate.rs). */
module CorrelateEdges {
  import opened Collections
  import opened GraphTypes
  import opened Events
  import opened CorrelateSpec
  import opened CorrelateBooks
  import opened CorrelateHistory
  import opened CorrelateTables

  // ---------- the tables, declaratively ----------

  /** A thread is in the off-CPU table exactly when its latest blocking
      switch-out, switch-in or exit is a blocking switch-out; the entry carries
      that time, the last non-idle waker since, and the futex reason pending then. */
  lemma OffCpuTableIsHistory(h: seq<WperfEvent>, thresholdNs: nat, t: u32)
    ensures t in Run(h, thresholdNs).offCpu <==> exists i: nat :: OffSince(h, t, i)
    ensures forall i: nat | OffSince(h, t, i) ::
              && t in Run(h, thresholdNs).offCpu
              && var r := Run(h, thresholdNs).offCpu[t];
              && r.switchOutNs == h[i].timestampNs
              && (r.wakerTid.Some? <==> exists k: nat :: LastWakeup(h, t, i, k))
              && (forall k: nat | LastWakeup(h, t, i, k) :: r.wakerTid == Some(h[k].prevTid))
              && r.waitType == WaitTypeAfter(h[..i], t, h[i].timestampNs)
  {
    OffTableEntry(h, thresholdNs, t);
    OffIndexMeaning(h, t);
    if OffIndex(h, t).Some? {
      var i := OffIndex(h, t).value;
      assert OffSince(h, t, i);
      WakeIndexMeaning(h, t, i);
    }
  }

  /** The futex reason at a switch-out is the last unconsumed futex event of the
      thread, provided it is at most one millisecond old. */
  lemma WaitTypeIsLastFutex(h: seq<WperfEvent>, t: u32, atNs: u64)
    ensures forall f: nat | FutexSince(h, t, f) ::
              WaitTypeAfter(h, t, atNs) ==
              if SatSub(atNs, h[f].timestampNs) <= FUTEX_CORRELATION_WINDOW_NS
              then Some(FutexWaitType(h[f].FutexOp())) else None
    ensures WaitTypeAfter(h, t, atNs).Some? ==> exists f: nat :: FutexSince(h, t, f)
  {
    FutexIndexMeaning(h, t);
    FutexIndexInRange(h, t);
    if FutexIndex(h, t).Some? {
      assert FutexSince(h, t, FutexIndex(h, t).value);
    }
  }

  /** The deferred edge of an episode: out at `i`, last woken at `k`, in at `j`. */
  ghost function EpisodeDeferral(h: seq<WperfEvent>, t: u32, i: nat, k: nat, j: nat): PendingEdge
    requires i < |h| && k < |h| && j < |h|
  {
    PendingEdge(h[j].timestampNs, ThreadId(t), ThreadId(h[k].prevTid),
                WaitWindow(h[i].timestampNs, h[j].timestampNs),
                WaitTypeAfter(h[..i], t, h[i].timestampNs))
  }

  lemma DeferralIsEpisode(h: seq<WperfEvent>, t: u32, i: nat, k: nat, j: nat)
    requires Episode(h, t, i, k, j)
    ensures Resumes(h[..j], h[j], t) && DeferralAt(h, t, j) == EpisodeDeferral(h, t, i, k, j)
  {
    ResumesMeaning(h, j, t);
    assert h[..j][..i] == h[..i];
  }

  /** A thread has a deferred edge exactly when it finished an episode and has
      neither left the CPU nor exited since; the edge is that episode's. */
  lemma PendingTableIsHistory(h: seq<WperfEvent>, thresholdNs: nat, t: u32)
    ensures t in Run(h, thresholdNs).pending <==>
              exists i: nat, k: nat, j: nat :: Episode(h, t, i, k, j) && StillOnCpu(h, t, j)
    ensures forall i: nat, k: nat, j: nat | Episode(h, t, i, k, j) && StillOnCpu(h, t, j) ::
              && t in Run(h, thresholdNs).pending
              && Run(h, thresholdNs).pending[t] == EpisodeDeferral(h, t, i, k, j)
  {
    PendingTableEntry(h, thresholdNs, t);
    PendIndexMeaning(h, t);
    forall i: nat, k: nat, j: nat | Episode(h, t, i, k, j) && StillOnCpu(h, t, j)
      ensures t in Run(h, thresholdNs).pending
      ensures Run(h, thresholdNs).pending[t] == EpisodeDeferral(h, t, i, k, j)
    {
      DeferralIsEpisode(h, t, i, k, j);
    }
    if PendIndex(h, t).Some? {
      var j := PendIndex(h, t).value;
      ResumesMeaning(h, j, t);
      var i: nat, k: nat :| Episode(h, t, i, k, j);
      assert Episode(h, t, i, k, j) && StillOnCpu(h, t, j);
    }
  }

  /** A request is in flight exactly when no later event has the same key. */
  lemma IoTableIsHistory(h: seq<WperfEvent>, thresholdNs: nat, key: IoKey)
    ensures key in Run(h, thresholdNs).io <==> exists i: nat :: InFlight(h, key, i)
    ensures forall i: nat | InFlight(h, key, i) ::
              && key in Run(h, thresholdNs).io
              && Run(h, thresholdNs).io[key] == PendingIo(h[i].pid, h[i].tid, h[i].timestampNs)
  {
    IoTableEntry(h, thresholdNs, key);
    IoIndexMeaning(h, key);
    if IoIndex(h, key).Some? {
      assert InFlight(h, key, IoIndex(h, key).value);
    }
  }

  // ---------- the fate of each event ----------

  ghost predicate Finishes(h: seq<WperfEvent>, j: nat) {
    j < |h| && Resumes(h[..j], h[j], h[j].nextTid)
  }

  ghost predicate Completes(h: seq<WperfEvent>, j: nat) {
    j < |h| && h[j].Kind() == Some(IoComplete) && IoIndex(h[..j], KeyOf(h[j])).Some?
  }

  /** The event at `k` is the first after `j` at which `t` leaves or exits. */
  ghost predicate ResolvedAt(h: seq<WperfEvent>, t: u32, j: nat, k: nat) {
    && j < k < |h| && (LeavesCpu(h[k], t) || Exits(h[k], t))
    && forall x | j < x < k :: !LeavesCpu(h[x], t) && !Exits(h[x], t)
  }

  /** The thread blocked again sooner than the threshold after coming in. */
  ghost predicate Spurious(h: seq<WperfEvent>, thresholdNs: nat, t: u32, j: nat) {
    j < |h| && exists k: nat :: ResolvedAt(h, t, j, k) && BlocksOut(h[k], t)
                                && SatSub(h[k].timestampNs, h[j].timestampNs) < thresholdNs
  }

  ghost function WaitEdge(h: seq<WperfEvent>, j: nat): Edge
    requires Finishes(h, j)
  {
    SchedulerEdge(DeferralAt(h, h[j].nextTid, j))
  }

  ghost function DiskEdges(h: seq<WperfEvent>, j: nat): multiset<Edge>
    requires Completes(h, j)
  {
    IoIndexInRange(h[..j], KeyOf(h[j]));
    var i := IoIndex(h[..j], KeyOf(h[j])).value;
    var pair := IoPair(PendingIo(h[i].pid, h[i].tid, h[i].timestampNs), h[j]);
    multiset{pair.0, pair.1}
  }

  /** Edges owed to event `j` once the whole history is known. */
  ghost function Owed(h: seq<WperfEvent>, thresholdNs: nat, j: nat): multiset<Edge> {
    if Finishes(h, j) then
      if Spurious(h, thresholdNs, h[j].nextTid, j) then multiset{} else multiset{WaitEdge(h, j)}
    else if Completes(h, j) then DiskEdges(h, j)
    else multiset{}
  }

  /** Of those, the edges already in the graph: not the ones still deferred. */
  ghost function Committed(h: seq<WperfEvent>, thresholdNs: nat, j: nat): multiset<Edge> {
    if Finishes(h, j) && StillOnCpu(h, h[j].nextTid, j) then multiset{} else Owed(h, thresholdNs, j)
  }

  ghost function SumBags(bags: seq<multiset<Edge>>): multiset<Edge> {
    if bags == [] then multiset{} else SumBags(bags[..|bags| - 1]) + bags[|bags| - 1]
  }

  ghost function OwedBags(h: seq<WperfEvent>, thresholdNs: nat, n: nat): seq<multiset<Edge>> {
    seq(n, j requires 0 <= j < n => Owed(h, thresholdNs, j))
  }

  ghost function CommittedBags(h: seq<WperfEvent>, thresholdNs: nat, n: nat): seq<multiset<Edge>> {
    seq(n, j requires 0 <= j < n => Committed(h, thresholdNs, j))
  }

  lemma {:induction false} SumBagsStep(a: seq<multiset<Edge>>, b: seq<multiset<Edge>>,
                                       s: Option<nat>, d: multiset<Edge>)
    requires |a| == |b|
    requires forall j: nat | j < |a| :: a[j] == b[j] + if s == Some(j) then d else multiset{}
    ensures SumBags(a) == SumBags(b) + if s.Some? && s.value < |a| then d else multiset{}
  {
    if a != [] {
      var n: nat := |a| - 1;
      SumBagsStep(a[..n], b[..n], s, d);
      assert a[n] == b[n] + if s == Some(n) then d else multiset{};
    }
  }

  // ---------- one more event ----------

  /** The thread whose deferred edge an event settles. */
  function Leaver(e: WperfEvent): Option<u32> {
    if e.Kind() == Some(Switch) && e.prevTid != 0 then Some(e.prevTid)
    else if e.Kind() == Some(Exit) then Some(e.tid)
    else None
  }

  function Appended(m: Machine, e: WperfEvent, thresholdNs: nat): seq<Edge> {
    if Leaver(e).Some? && Leaver(e).value in m.pending then
      var pe := m.pending[Leaver(e).value];
      if BlocksOut(e, Leaver(e).value) && SatSub(e.timestampNs, pe.switchInNs) < thresholdNs then []
      else [SchedulerEdge(pe)]
    else if e.Kind() == Some(IoComplete) && KeyOf(e) in m.io then
      [IoPair(m.io[KeyOf(e)], e).0, IoPair(m.io[KeyOf(e)], e).1]
    else []
  }

  lemma StepAppends(m: Machine, e: WperfEvent, thresholdNs: nat)
    requires 0 !in m.pending
    ensures Step(m, e, thresholdNs).edges == m.edges + Appended(m, e, thresholdNs)
  {
    var c := Count(m);
    match e.Kind()
    case Some(Switch) =>
      var m1 := ResolvePrev(c, e, thresholdNs);
      assert m1.edges == m.edges + Appended(m, e, thresholdNs);
      SwitchOutInFrame(m1, e);
      SwitchOutInFrame(SwitchOut(m1, e), e);
    case Some(Exit) =>
      assert CommitPending(c, e.tid).edges == m.edges + Appended(m, e, thresholdNs);
      assert HandleExit(c, e).edges == CommitPending(c, e.tid).edges;
    case Some(IoComplete) =>
      assert HandleIoComplete(c, e).edges == m.edges + Appended(m, e, thresholdNs);
    case _ => assert Step(m, e, thresholdNs).edges == m.edges;
  }

  /** Position whose deferred edge the last event of `h` settles. */
  ghost function Settled(h: seq<WperfEvent>): Option<nat>
    requires h != []
  {
    var n := |h| - 1;
    if Leaver(h[n]).Some? then PendIndex(h[..n], Leaver(h[n]).value) else None
  }

  ghost function SettledEdges(h: seq<WperfEvent>, thresholdNs: nat): multiset<Edge>
    requires h != []
  {
    if Settled(h).None? then multiset{} else Owed(h, thresholdNs, Settled(h).value)
  }

  lemma OwedIsStable(h: seq<WperfEvent>, n: nat, thresholdNs: nat, j: nat)
    requires j < n <= |h|
    ensures Finishes(h, j) <==> Finishes(h[..n], j)
    ensures Completes(h, j) <==> Completes(h[..n], j)
    ensures Finishes(h, j) ==> WaitEdge(h, j) == WaitEdge(h[..n], j)
    ensures Completes(h, j) ==> DiskEdges(h, j) == DiskEdges(h[..n], j)
  {
    assert h[..n][..j] == h[..j];
    IoIndexInRange(h[..j], KeyOf(h[j]));
  }

  /** A settled wait keeps its verdict as the history grows. */
  lemma VerdictIsStable(h: seq<WperfEvent>, n: nat, thresholdNs: nat, t: u32, j: nat)
    requires j < n <= |h| && !StillOnCpu(h[..n], t, j)
    ensures !StillOnCpu(h, t, j)
    ensures Spurious(h, thresholdNs, t, j) <==> Spurious(h[..n], thresholdNs, t, j)
  {
    var x :| j < x < |h[..n]| && (LeavesCpu(h[..n][x], t) || Exits(h[..n][x], t));
    assert LeavesCpu(h[x], t) || Exits(h[x], t);
    forall k: nat ensures ResolvedAt(h, t, j, k) <==> ResolvedAt(h[..n], t, j, k) {
      if ResolvedAt(h, t, j, k) {
        assert k <= x;
      }
    }
  }

  /** The settled position is the unfinished episode of the leaving thread. */
  lemma SettledMeaning(h: seq<WperfEvent>, j: nat)
    requires h != [] && j < |h| - 1
    ensures var p := h[..|h| - 1];
            Settled(h) == Some(j) <==>
              Finishes(p, j) && StillOnCpu(p, p[j].nextTid, j) && Leaver(h[|h| - 1]) == Some(p[j].nextTid)
  {
    var p, e := h[..|h| - 1], h[|h| - 1];
    if Leaver(e).Some? {
      PendIndexMeaning(p, Leaver(e).value);
    }
  }

  lemma StillOnCpuStep(h: seq<WperfEvent>, t: u32, j: nat)
    requires h != [] && j < |h| - 1 && t != 0
    ensures StillOnCpu(h, t, j) <==>
              StillOnCpu(h[..|h| - 1], t, j) && Leaver(h[|h| - 1]) != Some(t)
  {
    var n := |h| - 1;
    assert StillOnCpu(h, t, j) <==> StillOnCpu(h[..n], t, j) && !LeavesCpu(h[n], t) && !Exits(h[n], t);
  }

  ghost function SettledShare(h: seq<WperfEvent>, thresholdNs: nat, j: nat): multiset<Edge>
    requires h != []
  {
    if Settled(h) == Some(j) then SettledEdges(h, thresholdNs) else multiset{}
  }

  /** The last event changes the committed edges of no earlier position but the
      settled one. */
  lemma CommittedStep(h: seq<WperfEvent>, thresholdNs: nat, j: nat)
    requires h != [] && j < |h| - 1
    ensures Committed(h, thresholdNs, j)
         == Committed(h[..|h| - 1], thresholdNs, j) + SettledShare(h, thresholdNs, j)
  {
    var n := |h| - 1;
    OwedIsStable(h, n, thresholdNs, j);
    SettledMeaning(h, j);
    if Finishes(h, j) {
      var t := h[j].nextTid;
      StillOnCpuStep(h, t, j);
      if !StillOnCpu(h[..n], t, j) {
        VerdictIsStable(h, n, thresholdNs, t, j);
      }
    }
  }

  lemma SumCommittedStep(h: seq<WperfEvent>, thresholdNs: nat)
    requires h != []
    ensures var n := |h| - 1;
            SumBags(CommittedBags(h, thresholdNs, n))
            == SumBags(CommittedBags(h[..n], thresholdNs, n))
               + if Settled(h).Some? && Settled(h).value < n then SettledEdges(h, thresholdNs) else multiset{}
  {
    var n := |h| - 1;
    var a, b := CommittedBags(h, thresholdNs, n), CommittedBags(h[..n], thresholdNs, n);
    var d := SettledEdges(h, thresholdNs);
    forall j: nat | j < n ensures a[j] == b[j] + if Settled(h) == Some(j) then d else multiset{} {
      CommittedStep(h, thresholdNs, j);
    }
    SumBagsStep(a, b, Settled(h), d);
  }

  /** The newest event commits nothing on its own account but a disk pair. */
  lemma NewestCommitted(h: seq<WperfEvent>, thresholdNs: nat)
    requires h != []
    ensures Committed(h, thresholdNs, |h| - 1) ==
            if Completes(h, |h| - 1) then DiskEdges(h, |h| - 1) else multiset{}
  {
    var n := |h| - 1;
    assert StillOnCpu(h, h[n].nextTid, n);
  }

  /** The verdict at the moment of settling. */
  lemma SettlingVerdict(h: seq<WperfEvent>, thresholdNs: nat, j: nat)
    requires h != [] && Settled(h) == Some(j) && j < |h| - 1
    ensures Finishes(h, j) && Finishes(h[..|h| - 1], j)
    ensures Spurious(h, thresholdNs, h[j].nextTid, j) <==>
              && BlocksOut(h[|h| - 1], h[j].nextTid)
              && SatSub(h[|h| - 1].timestampNs, h[j].timestampNs) < thresholdNs
  {
    var n := |h| - 1;
    var t := h[j].nextTid;
    SettledMeaning(h, j);
    OwedIsStable(h, n, thresholdNs, j);
    forall x | j < x < n ensures !LeavesCpu(h[x], t) && !Exits(h[x], t) {
      assert h[x] == h[..n][x];
    }
    assert ResolvedAt(h, t, j, n);
    assert forall k: nat | ResolvedAt(h, t, j, k) :: k == n;
  }

  /** What the machine appends is what the history owes at that moment. */
  lemma AppendedWait(h: seq<WperfEvent>, thresholdNs: nat)
    requires h != [] && Leaver(h[|h| - 1]).Some?
    ensures multiset(Appended(Run(h[..|h| - 1], thresholdNs), h[|h| - 1], thresholdNs))
         == SettledEdges(h, thresholdNs)
  {
    var n := |h| - 1;
    var p, e, t := h[..n], h[n], Leaver(h[n]).value;
    PendingTableEntry(p, thresholdNs, t);
    if PendIndex(p, t).Some? {
      var j := PendIndex(p, t).value;
      SettlingVerdict(h, thresholdNs, j);
      OwedIsStable(h, n, thresholdNs, j);
    }
  }

  lemma AppendedDisk(h: seq<WperfEvent>, thresholdNs: nat)
    requires h != [] && Leaver(h[|h| - 1]).None?
    ensures var n := |h| - 1;
            multiset(Appended(Run(h[..n], thresholdNs), h[n], thresholdNs))
            == if Completes(h, n) then DiskEdges(h, n) else multiset{}
  {
    IoTableEntry(h[..|h| - 1], thresholdNs, KeyOf(h[|h| - 1]));
  }

  lemma AppendedIsOwed(h: seq<WperfEvent>, thresholdNs: nat)
    requires h != []
    ensures var n := |h| - 1;
            multiset(Appended(Run(h[..n], thresholdNs), h[n], thresholdNs))
            == SettledEdges(h, thresholdNs) + if Completes(h, n) then DiskEdges(h, n) else multiset{}
  {
    if Leaver(h[|h| - 1]).Some? {
      AppendedWait(h, thresholdNs);
    } else {
      AppendedDisk(h, thresholdNs);
    }
  }

  ghost function NewestDisk(h: seq<WperfEvent>): multiset<Edge>
    requires h != []
  {
    if Completes(h, |h| - 1) then DiskEdges(h, |h| - 1) else multiset{}
  }

  lemma RunEdgesStep(h: seq<WperfEvent>, thresholdNs: nat)
    requires h != []
    ensures multiset(Run(h, thresholdNs).edges)
         == multiset(Run(h[..|h| - 1], thresholdNs).edges) + SettledEdges(h, thresholdNs) + NewestDisk(h)
  {
    var m := Run(h[..|h| - 1], thresholdNs);
    RunKeepsDeferred(h[..|h| - 1], thresholdNs);
    StepAppends(m, h[|h| - 1], thresholdNs);
    AppendedIsOwed(h, thresholdNs);
  }

  lemma CommittedBagsStep(h: seq<WperfEvent>, thresholdNs: nat)
    requires h != []
    ensures SumBags(CommittedBags(h, thresholdNs, |h|))
         == SumBags(CommittedBags(h[..|h| - 1], thresholdNs, |h| - 1))
            + SettledEdges(h, thresholdNs) + NewestDisk(h)
  {
    var n := |h| - 1;
    var bags := CommittedBags(h, thresholdNs, |h|);
    assert bags[..n] == CommittedBags(h, thresholdNs, n);
    assert SumBags(bags) == SumBags(CommittedBags(h, thresholdNs, n)) + Committed(h, thresholdNs, n);
    NewestCommitted(h, thresholdNs);
    SumCommittedStep(h, thresholdNs);
    if Settled(h).Some? {
      PendIndexInRange(h[..n], Leaver(h[n]).value);
    }
    AddLast(SumBags(bags), SumBags(CommittedBags(h, thresholdNs, n)), SumBags(CommittedBags(h[..n], thresholdNs, n)),
            SettledEdges(h, thresholdNs), NewestDisk(h));
  }

  lemma AddLast(all: multiset<Edge>, most: multiset<Edge>, before: multiset<Edge>, settled: multiset<Edge>,
                newest: multiset<Edge>)
    requires all == most + newest && most == before + settled
    ensures all == before + settled + newest
  {}

  /** At every moment the graph holds exactly the edges owed so far. */
  lemma {:induction false} RunCommits(h: seq<WperfEvent>, thresholdNs: nat)
    ensures multiset(Run(h, thresholdNs).edges) == SumBags(CommittedBags(h, thresholdNs, |h|))
  {
    if h != [] {
      RunCommits(h[..|h| - 1], thresholdNs);
      RunEdgesStep(h, thresholdNs);
      CommittedBagsStep(h, thresholdNs);
    }
  }

  // ---------- the leftover table ----------

  /** Draining a thread is what an exit of that thread would have done. */
  function ExitEvent(t: u32): WperfEvent {
    WperfEvent(0, 0, t, 0, 0, 0, 0, 0, 4, 0, 0)
  }

  function ExitEvents(order: seq<u32>): seq<WperfEvent> {
    seq(|order|, i requires 0 <= i < |order| => ExitEvent(order[i]))
  }

  lemma ExitStep(m: Machine, t: u32, thresholdNs: nat)
    ensures var s := Step(m, ExitEvent(t), thresholdNs);
            var c := CommitPending(m, t);
            s.edges == c.edges && s.pending == c.pending
  {
    assert Step(m, ExitEvent(t), thresholdNs) == HandleExit(Count(m), ExitEvent(t));
  }

  lemma {:induction false} DrainIsExits(h: seq<WperfEvent>, thresholdNs: nat, order: seq<u32>)
    ensures var d := Drain(Run(h, thresholdNs), order);
            var x := Run(h + ExitEvents(order), thresholdNs);
            x.edges == d.edges && x.pending == d.pending
  {
    if order == [] {
      assert h + ExitEvents(order) == h;
    } else {
      var init, t := order[..|order| - 1], order[|order| - 1];
      DrainIsExits(h, thresholdNs, init);
      var long := h + ExitEvents(order);
      assert long[..|long| - 1] == h + ExitEvents(init);
      assert long[|long| - 1] == ExitEvent(t);
      ExitStep(Run(h + ExitEvents(init), thresholdNs), t, thresholdNs);
    }
  }

  lemma OpenEpisodeAfterExits(h: seq<WperfEvent>, thresholdNs: nat, order: seq<u32>, t: u32, j: nat)
    requires j < |h| && StillOnCpu(h, t, j) && t in order
    ensures !StillOnCpu(h + ExitEvents(order), t, j)
    ensures !Spurious(h, thresholdNs, t, j) && !Spurious(h + ExitEvents(order), thresholdNs, t, j)
  {
    var long := h + ExitEvents(order);
    var i :| 0 <= i < |order| && order[i] == t;
    assert Exits(long[|h| + i], t);
    assert forall k | 0 <= k < |h| :: long[k] == h[k];
    assert forall k | |h| <= k < |long| :: long[k] == ExitEvent(order[k - |h|]);
    assert forall k: nat | ResolvedAt(long, t, j, k) :: !BlocksOut(long[k], t);
  }

  /** Exits resolve every open episode and filter none. */
  lemma OwedAfterExits(h: seq<WperfEvent>, thresholdNs: nat, order: seq<u32>, j: nat)
    requires Enumerates(order, Run(h, thresholdNs).pending.Keys) && j < |h|
    ensures Committed(h + ExitEvents(order), thresholdNs, j) == Owed(h, thresholdNs, j)
  {
    var long := h + ExitEvents(order);
    assert long[..|h|] == h;
    OwedIsStable(long, |h|, thresholdNs, j);
    if Finishes(h, j) {
      var t := h[j].nextTid;
      if StillOnCpu(h, t, j) {
        PendIndexMeaning(h, t);
        PendingTableEntry(h, thresholdNs, t);
        OpenEpisodeAfterExits(h, thresholdNs, order, t, j);
      } else {
        VerdictIsStable(long, |h|, thresholdNs, t, j);
      }
    }
  }

  lemma ExitsOweNothing(h: seq<WperfEvent>, thresholdNs: nat, order: seq<u32>, j: nat)
    requires |h| <= j < |h| + |order|
    ensures Committed(h + ExitEvents(order), thresholdNs, j) == multiset{}
  {
    assert (h + ExitEvents(order))[j] == ExitEvent(order[j - |h|]);
  }

  lemma {:induction false} SumBagsPadded(bags: seq<multiset<Edge>>, n: nat)
    requires n <= |bags| && forall j | n <= j < |bags| :: bags[j] == multiset{}
    ensures SumBags(bags) == SumBags(bags[..n])
    decreases |bags|
  {
    if n < |bags| {
      SumBagsPadded(bags[..|bags| - 1], n);
      assert bags[..|bags| - 1][..n] == bags[..n];
    } else {
      assert bags[..n] == bags;
    }
  }

  lemma BagsAfterExits(h: seq<WperfEvent>, long: seq<WperfEvent>, thresholdNs: nat, order: seq<u32>)
    requires Enumerates(order, Run(h, thresholdNs).pending.Keys) && long == h + ExitEvents(order)
    ensures SumBags(CommittedBags(long, thresholdNs, |long|)) == SumBags(OwedBags(h, thresholdNs, |h|))
  {
    var bags, owed := CommittedBags(long, thresholdNs, |long|), OwedBags(h, thresholdNs, |h|);
    forall j: nat | |h| <= j < |bags| ensures bags[j] == multiset{} {
      ExitsOweNothing(h, thresholdNs, order, j);
    }
    forall j: nat | j < |h| ensures bags[j] == owed[j] {
      OwedAfterExits(h, thresholdNs, order, j);
    }
    SumPaddedEqual(bags, owed);
  }

  lemma SumPaddedEqual(bags: seq<multiset<Edge>>, owed: seq<multiset<Edge>>)
    requires |owed| <= |bags|
    requires forall j: nat | j < |owed| :: bags[j] == owed[j]
    requires forall j: nat | |owed| <= j < |bags| :: bags[j] == multiset{}
    ensures SumBags(bags) == SumBags(owed)
  {
    SumBagsPadded(bags, |owed|);
    assert bags[..|owed|] == owed;
  }

  lemma CorrelateIsLongRun(h: seq<WperfEvent>, long: seq<WperfEvent>, thresholdNs: nat, order: seq<u32>)
    requires long == h + ExitEvents(order)
    ensures Correlate(h, thresholdNs, order).edges == Run(long, thresholdNs).edges
  {
    DrainIsExits(h, thresholdNs, order);
  }

  /** The finished graph is exactly what the history owes: one edge for every
      episode that is not spurious and a pair for every completed request,
      whatever the order in which the leftovers are drained. */
  lemma GraphIsHistory(h: seq<WperfEvent>, thresholdNs: nat, order: seq<u32>)
    requires Enumerates(order, Run(h, thresholdNs).pending.Keys)
    ensures multiset(Correlate(h, thresholdNs, order).edges) == SumBags(OwedBags(h, thresholdNs, |h|))
  {
    var long := h + ExitEvents(order);
    CorrelateIsLongRun(h, long, thresholdNs, order);
    RunCommits(long, thresholdNs);
    BagsAfterExits(h, long, thresholdNs, order);
  }
}
