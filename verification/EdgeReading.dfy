/** The finished graph in terms of nothing but the fields of the recorded events:
    event codes, thread ids, states, timestamps (src/correlate.rs,
    src/format/event.rs). */
module EdgeReading {
  import opened Collections
  import opened GraphTypes
  import opened Events
  import opened CorrelateSpec
  import opened CorrelateHistory
  import opened CorrelateTables
  import opened CorrelateEdges
  import opened CorrelateWindows

  // ---------- what an event says of a thread ----------

  /** A switch (code 1) away from `t`, which is not left runnable (state 0). */
  predicate Stops(e: WperfEvent, t: u32) {
    e.eventType == 1 && e.prevTid == t && t != 0 && e.prevState != 0
  }

  predicate Starts(e: WperfEvent, t: u32) {
    e.eventType == 1 && e.nextTid == t && t != 0
  }

  /** A switch away from `t`, in whatever state, or its exit (code 4). */
  predicate Goes(e: WperfEvent, t: u32) {
    (e.eventType == 1 && e.prevTid == t && t != 0) || (e.eventType == 4 && e.tid == t)
  }

  /** A wakeup (codes 2 and 3) of `t` by another thread than the idle one. */
  predicate Rouses(e: WperfEvent, t: u32) {
    (e.eventType == 2 || e.eventType == 3) && e.nextTid == t && e.prevTid != 0
  }

  /** A futex wait (code 5) of `t`. */
  predicate WaitsOnFutex(e: WperfEvent, t: u32) {
    e.eventType == 5 && e.tid == t
  }

  predicate Quits(e: WperfEvent, t: u32) {
    e.eventType == 4 && e.tid == t
  }

  lemma Codes(e: WperfEvent, t: u32)
    ensures Stops(e, t) <==> BlocksOut(e, t)
    ensures Starts(e, t) <==> ComesIn(e, t)
    ensures Goes(e, t) <==> LeavesCpu(e, t) || Exits(e, t)
    ensures Rouses(e, t) <==> Wakes(e, t)
    ensures WaitsOnFutex(e, t) <==> EntersFutex(e, t)
    ensures Quits(e, t) <==> Exits(e, t)
  {}

  /** Only codes 1 to 7 are known. */
  lemma UnknownCodes(e: WperfEvent)
    ensures e.Kind().None? <==> e.eventType == 0 || e.eventType > 7
  {}

  // ---------- waits ----------

  /** `t` stops at `i`, is last roused at `k` and starts again at `j`. */
  ghost predicate Waited(h: seq<WperfEvent>, t: u32, i: nat, k: nat, j: nat) {
    && i < k < j < |h|
    && Stops(h[i], t) && !Starts(h[i], t) && Starts(h[j], t) && !Stops(h[j], t)
    && (forall x | i < x < j :: !Stops(h[x], t) && !Starts(h[x], t) && !Quits(h[x], t))
    && Rouses(h[k], t) && (forall x | k < x < j :: !Rouses(h[x], t))
  }

  lemma WaitedIsEpisode(h: seq<WperfEvent>, t: u32, i: nat, k: nat, j: nat)
    ensures Waited(h, t, i, k, j) <==> Episode(h, t, i, k, j)
  {
    forall e ensures (Stops(e, t) <==> BlocksOut(e, t)) && (Starts(e, t) <==> ComesIn(e, t))
                     && (Rouses(e, t) <==> Wakes(e, t)) && (Quits(e, t) <==> Exits(e, t)) {
      Codes(e, t);
    }
    if j < |h| {
      var p := h[..j];
      assert forall x | 0 <= x < j :: p[x] == h[x];
    }
  }

  /** The thread stops again within the threshold, before anything else takes it
      off the CPU. */
  ghost predicate StopsAgainAt(h: seq<WperfEvent>, thresholdNs: nat, t: u32, j: nat, x: nat) {
    && j < x < |h| && Stops(h[x], t) && (forall y | j < y < x :: !Goes(h[y], t))
    && thresholdNs > 0 && h[x].timestampNs < h[j].timestampNs + thresholdNs
  }

  ghost predicate StopsAgain(h: seq<WperfEvent>, thresholdNs: nat, t: u32, j: nat) {
    exists x: nat :: StopsAgainAt(h, thresholdNs, t, j, x)
  }

  lemma SpuriousIsStopsAgain(h: seq<WperfEvent>, thresholdNs: nat, t: u32, j: nat)
    requires j < |h|
    ensures Spurious(h, thresholdNs, t, j) <==> StopsAgain(h, thresholdNs, t, j)
  {
    forall e ensures (Stops(e, t) <==> BlocksOut(e, t)) && (Goes(e, t) <==> LeavesCpu(e, t) || Exits(e, t)) {
      Codes(e, t);
    }
    if Spurious(h, thresholdNs, t, j) {
      var x: nat :| ResolvedAt(h, t, j, x) && BlocksOut(h[x], t)
                    && SatSub(h[x].timestampNs, h[j].timestampNs) < thresholdNs;
      assert StopsAgainAt(h, thresholdNs, t, j, x);
    }
    if StopsAgain(h, thresholdNs, t, j) {
      var x: nat :| StopsAgainAt(h, thresholdNs, t, j, x);
      assert LeavesCpu(h[x], t) && ResolvedAt(h, t, j, x);
    }
  }

  // ---------- the reason of a wait ----------

  /** The kernel's futex operation codes. */
  function ReasonOf(op: u32): WaitType {
    if op == 0 then WaitType.FutexWait
    else if op == 6 then WaitType.FutexLockPi
    else if op == 9 then WaitType.FutexWaitBitset
    else if op == 11 then WaitType.FutexWaitRequeuePi
    else WaitType.Unknown
  }

  /** The last futex wait of `t` before `i`, unless it has stopped or quit since. */
  ghost predicate LastFutex(h: seq<WperfEvent>, t: u32, i: nat, f: nat) {
    && f < i <= |h| && WaitsOnFutex(h[f], t)
    && forall x | f < x < i :: !WaitsOnFutex(h[x], t) && !Stops(h[x], t) && !Quits(h[x], t)
  }

  /** Such a futex wait no more than a millisecond before `i` is the reason. */
  ghost predicate HasReason(h: seq<WperfEvent>, t: u32, i: nat, reason: Option<WaitType>)
    requires i < |h|
  {
    && (forall f: nat | LastFutex(h, t, i, f) ::
          reason == if h[i].timestampNs <= h[f].timestampNs + 1_000_000 then Some(ReasonOf(h[f].flags)) else None)
    && (reason.Some? ==> exists f: nat :: LastFutex(h, t, i, f))
  }

  lemma LastFutexIsSince(h: seq<WperfEvent>, t: u32, i: nat, f: nat)
    requires i <= |h|
    ensures LastFutex(h, t, i, f) <==> FutexSince(h[..i], t, f)
  {
    forall e ensures (Stops(e, t) <==> BlocksOut(e, t)) && (WaitsOnFutex(e, t) <==> EntersFutex(e, t))
                     && (Quits(e, t) <==> Exits(e, t)) {
      Codes(e, t);
    }
    var p := h[..i];
    assert forall x | 0 <= x < i :: p[x] == h[x];
  }

  lemma ReasonIsWaitType(h: seq<WperfEvent>, t: u32, i: nat, reason: Option<WaitType>)
    requires i < |h|
    ensures HasReason(h, t, i, reason) <==> reason == WaitTypeAfter(h[..i], t, h[i].timestampNs)
  {
    var p, found := h[..i], WaitTypeAfter(h[..i], t, h[i].timestampNs);
    WaitTypeIsLastFutex(p, t, h[i].timestampNs);
    forall f: nat ensures LastFutex(h, t, i, f) <==> FutexSince(p, t, f) {
      LastFutexIsSince(h, t, i, f);
    }
    forall f: nat | LastFutex(h, t, i, f)
      ensures found == if h[i].timestampNs <= h[f].timestampNs + 1_000_000 then Some(ReasonOf(h[f].flags)) else None
    {
      assert p[f] == h[f];
    }
    if found.Some? {
      var f: nat :| FutexSince(p, t, f);
      assert LastFutex(h, t, i, f);
    }
  }

  // ---------- thread edges ----------

  /** The edge from `t` to whoever roused it at `k`: from the millisecond it
      stopped, for as many whole milliseconds as it was off the CPU. */
  ghost predicate IsWaitEdge(h: seq<WperfEvent>, t: u32, i: nat, k: nat, j: nat, e: Edge)
    requires i < |h| && k < |h| && j < |h|
  {
    && e.src.id == t && e.dst.id == h[k].prevTid
    && e.weight.window.startMs == h[i].timestampNs / 1_000_000
    && e.weight.rawWaitMs == (if h[j].timestampNs < h[i].timestampNs then 0
                              else (h[j].timestampNs - h[i].timestampNs) / 1_000_000)
    && e.weight.window.endMs == e.weight.window.startMs + e.weight.rawWaitMs
    && e.weight.attributedDelayMs == e.weight.rawWaitMs
    && e.weight.kind == Normal && HasReason(h, t, i, e.weight.waitType)
  }

  ghost predicate WaitEdgeAt(h: seq<WperfEvent>, thresholdNs: nat, t: u32, i: nat, k: nat, j: nat, e: Edge) {
    Waited(h, t, i, k, j) && IsWaitEdge(h, t, i, k, j, e) && !StopsAgain(h, thresholdNs, t, j)
  }

  ghost predicate AnyWaitEdge(h: seq<WperfEvent>, thresholdNs: nat, e: Edge) {
    exists t: u32, i: nat, k: nat, j: nat :: WaitEdgeAt(h, thresholdNs, t, i, k, j, e)
  }

  lemma WaitEdgeIs(h: seq<WperfEvent>, t: u32, i: nat, k: nat, j: nat, e: Edge)
    requires Episode(h, t, i, k, j)
    ensures Finishes(h, j) && h[j].nextTid == t && i < |h| && k < |h|
    ensures IsWaitEdge(h, t, i, k, j, e) <==> e == WaitEdge(h, j)
  {
    DeferralIsEpisode(h, t, i, k, j);
    assert i < |h[..j]| && k < |h[..j]|;
    ReasonIsWaitType(h, t, i, e.weight.waitType);
    ReasonIsWaitType(h, t, i, WaitEdge(h, j).weight.waitType);
    if IsWaitEdge(h, t, i, k, j, e) {
      assert e.weight == WaitEdge(h, j).weight;
    }
  }

  lemma OwedWaitReads(h: seq<WperfEvent>, thresholdNs: nat, j: nat, e: Edge)
    requires Finishes(h, j) && e in Owed(h, thresholdNs, j)
    ensures AnyWaitEdge(h, thresholdNs, e)
  {
    var t := h[j].nextTid;
    ResumesMeaning(h, j, t);
    var i: nat, k: nat :| Episode(h, t, i, k, j);
    WaitEdgeIs(h, t, i, k, j, e);
    WaitedIsEpisode(h, t, i, k, j);
    SpuriousIsStopsAgain(h, thresholdNs, t, j);
    assert WaitEdgeAt(h, thresholdNs, t, i, k, j, e);
  }

  lemma WaitIsOwed(h: seq<WperfEvent>, thresholdNs: nat, t: u32, i: nat, k: nat, j: nat, e: Edge)
    requires WaitEdgeAt(h, thresholdNs, t, i, k, j, e)
    ensures j < |h| && e in Owed(h, thresholdNs, j)
  {
    WaitedIsEpisode(h, t, i, k, j);
    WaitEdgeIs(h, t, i, k, j, e);
    SpuriousIsStopsAgain(h, thresholdNs, t, j);
  }

  // ---------- disk edges ----------

  /** Requests and completions (codes 6 and 7) name the same device, sector and
      size: the fields that carry them agree. */
  predicate SameRequest(a: WperfEvent, b: WperfEvent) {
    a.prevPid == b.prevPid && a.prevTid == b.prevTid && a.nextTid == b.nextTid && a.nextPid == b.nextPid
  }

  lemma SameKeys(a: WperfEvent, b: WperfEvent)
    ensures KeyOf(a) == KeyOf(b) <==> SameRequest(a, b)
  {}

  /** The request at `i` is completed at `j`, with no event about it in between. */
  ghost predicate Served(h: seq<WperfEvent>, i: nat, j: nat) {
    && i < j < |h| && h[i].eventType == 6 && h[j].eventType == 7 && SameRequest(h[i], h[j])
    && forall x | i < x < j :: !((h[x].eventType == 6 || h[x].eventType == 7) && SameRequest(h[x], h[j]))
  }

  /** The requester's wait for the disk (thread id -5), or the way back; from the
      millisecond of the request to that of the completion. */
  ghost predicate IsDiskEdge(h: seq<WperfEvent>, i: nat, j: nat, e: Edge)
    requires i < |h| && j < |h|
  {
    && ((e.src.id == h[i].tid && e.dst.id == -5 && e.weight.kind == Normal)
        || (e.src.id == -5 && e.dst.id == h[i].tid && e.weight.kind == SyntheticClosureReturn))
    && e.weight.window.startMs == h[i].timestampNs / 1_000_000
    && e.weight.window.endMs == Max(h[i].timestampNs / 1_000_000, h[j].timestampNs / 1_000_000)
    && e.weight.rawWaitMs == e.weight.window.endMs - e.weight.window.startMs
    && e.weight.attributedDelayMs == e.weight.rawWaitMs && e.weight.waitType == Some(IoBlock)
  }

  ghost predicate DiskEdgeAt(h: seq<WperfEvent>, i: nat, j: nat, e: Edge) {
    Served(h, i, j) && IsDiskEdge(h, i, j, e)
  }

  ghost predicate AnyDiskEdge(h: seq<WperfEvent>, e: Edge) {
    exists i: nat, j: nat :: DiskEdgeAt(h, i, j, e)
  }

  lemma ServedIsInFlight(h: seq<WperfEvent>, i: nat, j: nat)
    requires j < |h|
    ensures Served(h, i, j) <==> h[j].Kind() == Some(IoComplete) && InFlight(h[..j], KeyOf(h[j]), i)
  {
    var p := h[..j];
    assert forall x | 0 <= x < j :: p[x] == h[x];
    forall x | 0 <= x < j ensures KeyOf(h[x]) == KeyOf(h[j]) <==> SameRequest(h[x], h[j]) {
      SameKeys(h[x], h[j]);
    }
  }

  lemma DiskEdgesAre(h: seq<WperfEvent>, i: nat, j: nat, e: Edge)
    requires Served(h, i, j)
    ensures Completes(h, j)
    ensures IsDiskEdge(h, i, j, e) <==> e in DiskEdges(h, j)
  {
    ServedIsInFlight(h, i, j);
    IoIndexMeaning(h[..j], KeyOf(h[j]));
    assert IoIndex(h[..j], KeyOf(h[j])) == Some(i) && h[..j][i] == h[i];
    var user, w := ThreadId(h[i].tid), ServiceWindow(h[i].timestampNs, h[j].timestampNs);
    assert DiskEdges(h, j) == multiset{RequestEdge(user, w), ReturnEdge(user, w)};
    if IsDiskEdge(h, i, j, e) {
      assert e == RequestEdge(user, w) || e == ReturnEdge(user, w);
    }
  }

  lemma OwedDiskReads(h: seq<WperfEvent>, thresholdNs: nat, j: nat, e: Edge)
    requires !Finishes(h, j) && j < |h| && e in Owed(h, thresholdNs, j)
    ensures AnyDiskEdge(h, e)
  {
    IoIndexMeaning(h[..j], KeyOf(h[j]));
    var i := IoIndex(h[..j], KeyOf(h[j])).value;
    assert InFlight(h[..j], KeyOf(h[j]), i);
    ServedIsInFlight(h, i, j);
    DiskEdgesAre(h, i, j, e);
    assert DiskEdgeAt(h, i, j, e);
  }

  lemma DiskIsOwed(h: seq<WperfEvent>, thresholdNs: nat, i: nat, j: nat, e: Edge)
    requires DiskEdgeAt(h, i, j, e)
    ensures j < |h| && e in Owed(h, thresholdNs, j)
  {
    DiskEdgesAre(h, i, j, e);
    assert h[j].Kind() == Some(IoComplete);
    assert !Finishes(h, j);
  }

  // ---------- the finished graph ----------

  lemma {:induction false} InSum(bags: seq<multiset<Edge>>, j: nat, e: Edge)
    requires j < |bags| && e in bags[j]
    ensures e in SumBags(bags)
  {
    if j < |bags| - 1 {
      InSum(bags[..|bags| - 1], j, e);
    }
  }

  /** An edge is in the finished graph exactly when the recorded events contain
      its wait or its disk request, as their fields tell it. */
  lemma EdgesAreRead(h: seq<WperfEvent>, thresholdNs: nat, order: seq<u32>, e: Edge)
    requires Enumerates(order, Run(h, thresholdNs).pending.Keys)
    ensures e in Correlate(h, thresholdNs, order).edges <==> AnyWaitEdge(h, thresholdNs, e) || AnyDiskEdge(h, e)
  {
    var es, bags := Correlate(h, thresholdNs, order).edges, OwedBags(h, thresholdNs, |h|);
    GraphIsHistory(h, thresholdNs, order);
    assert e in es <==> e in multiset(es);
    if e in es {
      var j := InSomeBag(bags, e);
      if Finishes(h, j) {
        OwedWaitReads(h, thresholdNs, j, e);
      } else {
        OwedDiskReads(h, thresholdNs, j, e);
      }
    }
    if AnyWaitEdge(h, thresholdNs, e) {
      var t: u32, i: nat, k: nat, j: nat :| WaitEdgeAt(h, thresholdNs, t, i, k, j, e);
      WaitIsOwed(h, thresholdNs, t, i, k, j, e);
      InSum(bags, j, e);
    }
    if AnyDiskEdge(h, e) {
      var i: nat, j: nat :| DiskEdgeAt(h, i, j, e);
      DiskIsOwed(h, thresholdNs, i, j, e);
      InSum(bags, j, e);
    }
  }
}
