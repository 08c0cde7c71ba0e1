/** The reported counters in terms of nothing but the fields of the recorded
    events (src/correlate.rs). */
module CounterReading {
  import opened Events
  import opened CorrelateSpec
  import opened CorrelateHistory
  import opened CorrelateEdges
  import opened CorrelateCounters
  import opened EdgeReading

  /** `t` stopped at `i` and has neither started, stopped again nor quit since. */
  ghost predicate AwaySince(h: seq<WperfEvent>, t: u32, i: nat) {
    && i < |h| && Stops(h[i], t) && !Starts(h[i], t)
    && forall x | i < x < |h| :: !Stops(h[x], t) && !Starts(h[x], t) && !Quits(h[x], t)
  }

  ghost predicate Away(h: seq<WperfEvent>, t: u32) {
    exists i: nat :: AwaySince(h, t, i)
  }

  ghost predicate RousedAt(h: seq<WperfEvent>, t: u32, i: nat, k: nat) {
    AwaySince(h, t, i) && i < k < |h| && Rouses(h[k], t)
  }

  ghost predicate RousedSince(h: seq<WperfEvent>, t: u32) {
    exists i: nat, k: nat :: RousedAt(h, t, i, k)
  }

  ghost predicate OpenSince(h: seq<WperfEvent>, e: WperfEvent, i: nat) {
    && i < |h| && h[i].eventType == 6 && SameRequest(h[i], e)
    && forall x | i < x < |h| :: !((h[x].eventType == 6 || h[x].eventType == 7) && SameRequest(h[x], e))
  }

  /** The last event about the request of `e` is its issue. */
  ghost predicate Open(h: seq<WperfEvent>, e: WperfEvent) {
    exists i: nat :: OpenSince(h, e, i)
  }

  /** When the event `e` after `h` is counted under `c`. */
  ghost predicate Situation(c: Counter, h: seq<WperfEvent>, e: WperfEvent) {
    match c
    case UnmatchedWakeup => Rouses(e, e.nextTid) && !Away(h, e.nextTid)
    case UnmatchedSwitchIn => Starts(e, e.nextTid) && !Away(h, e.nextTid) && !Stops(e, e.nextTid)
    case WithoutWaker =>
      Starts(e, e.nextTid) && (Stops(e, e.nextTid) || (Away(h, e.nextTid) && !RousedSince(h, e.nextTid)))
    case UnknownType => e.eventType == 0 || e.eventType > 7
    case OrphanComplete => e.eventType == 7 && !Open(h, e)
    case PairCollision => e.eventType == 6 && Open(h, e)
  }

  lemma AwayIsOffCpu(h: seq<WperfEvent>, t: u32)
    ensures forall i: nat :: AwaySince(h, t, i) <==> OffSince(h, t, i)
    ensures Away(h, t) <==> OffCpu(h, t)
  {
    forall e ensures (Stops(e, t) <==> BlocksOut(e, t)) && (Starts(e, t) <==> ComesIn(e, t))
                     && (Quits(e, t) <==> Exits(e, t)) {
      Codes(e, t);
    }
    if Away(h, t) {
      var i: nat :| AwaySince(h, t, i);
      assert OffSince(h, t, i);
    }
    if OffCpu(h, t) {
      var i: nat :| OffSince(h, t, i);
      assert AwaySince(h, t, i);
    }
  }

  lemma {:induction false} LastOfWakeups(h: seq<WperfEvent>, t: u32, i: nat, k: nat) returns (last: nat)
    requires i < k < |h| && Wakes(h[k], t)
    ensures LastWakeup(h, t, i, last)
    decreases |h| - k
  {
    if x :| k < x < |h| && Wakes(h[x], t) {
      last := LastOfWakeups(h, t, i, x);
    } else {
      last := k;
    }
  }

  lemma RousedIsWoken(h: seq<WperfEvent>, t: u32)
    ensures RousedSince(h, t) <==> WokenSinceOff(h, t)
  {
    AwayIsOffCpu(h, t);
    if RousedSince(h, t) {
      var i: nat, k: nat :| RousedAt(h, t, i, k);
      Codes(h[k], t);
      var last := LastOfWakeups(h, t, i, k);
      assert OffSince(h, t, i) && LastWakeup(h, t, i, last);
    }
    if WokenSinceOff(h, t) {
      var i: nat, k: nat :| OffSince(h, t, i) && LastWakeup(h, t, i, k);
      Codes(h[k], t);
      assert RousedAt(h, t, i, k);
    }
  }

  lemma OpenIsOutstanding(h: seq<WperfEvent>, e: WperfEvent)
    ensures Open(h, e) <==> Outstanding(h, KeyOf(e))
  {
    forall x | 0 <= x < |h| ensures KeyOf(h[x]) == KeyOf(e) <==> SameRequest(h[x], e) {
      SameKeys(h[x], e);
    }
    if Open(h, e) {
      var i: nat :| OpenSince(h, e, i);
      assert InFlight(h, KeyOf(e), i);
    }
    if Outstanding(h, KeyOf(e)) {
      var i: nat :| InFlight(h, KeyOf(e), i);
      assert OpenSince(h, e, i);
    }
  }

  lemma SituationIsCounted(c: Counter, h: seq<WperfEvent>, e: WperfEvent)
    ensures Situation(c, h, e) <==> CountedUnder(c, h, e)
  {
    Codes(e, e.nextTid);
    AwayIsOffCpu(h, e.nextTid);
    RousedIsWoken(h, e.nextTid);
    OpenIsOutstanding(h, e);
    UnknownCodes(e);
  }

  ghost predicate CountsAt(c: Counter, h: seq<WperfEvent>, j: nat) {
    j < |h| && Situation(c, h[..j], h[j])
  }

  /** Positions of the events counted under `c`. */
  ghost function CountedAt(c: Counter, h: seq<WperfEvent>): set<nat> {
    set j: nat | j < |h| && CountsAt(c, h, j)
  }

  lemma OneMore(a: set<nat>, n: nat, counts: bool, b: set<nat>)
    requires n !in a && b == if counts then a + {n} else a
    ensures |b| == |a| + if counts then 1 else 0
  {}

  lemma CountsAtPrefix(c: Counter, h: seq<WperfEvent>, n: nat, j: nat)
    requires j < n <= |h|
    ensures CountsAt(c, h[..n], j) <==> CountsAt(c, h, j)
  {
    assert h[..n][..j] == h[..j];
  }

  lemma CountedAtStep(c: Counter, h: seq<WperfEvent>, n: nat)
    requires |h| == n + 1
    ensures CountedAt(c, h) == if CountsAt(c, h, n) then CountedAt(c, h[..n]) + {n} else CountedAt(c, h[..n])
  {
    forall j: nat ensures j in CountedAt(c, h) <==> j in CountedAt(c, h[..n]) || (j == n && CountsAt(c, h, n)) {
      if j < n {
        CountsAtPrefix(c, h, n, j);
      }
    }
  }

  lemma {:induction false} CountedAtGrows(c: Counter, h: seq<WperfEvent>)
    ensures |CountedAt(c, h)| == TimesCounted(c, h)
  {
    if h != [] {
      var n: nat := |h| - 1;
      CountedAtGrows(c, h[..n]);
      SituationIsCounted(c, h[..n], h[n]);
      CountedAtStep(c, h, n);
      OneMore(CountedAt(c, h[..n]), n, CountsAt(c, h, n), CountedAt(c, h));
    } else {
      assert CountedAt(c, h) == {};
    }
  }

  /** Each reported counter is the number of events in its situation. */
  lemma CountersAreRead(h: seq<WperfEvent>, thresholdNs: nat, order: seq<u32>, c: Counter)
    ensures Reading(Correlate(h, thresholdNs, order).stats, c) == |CountedAt(c, h)|
  {
    CountersAreHistory(h, thresholdNs, order, c);
    CountedAtGrows(c, h);
  }

  // ---------- filtered waits ----------

  ghost predicate EndsWait(h: seq<WperfEvent>, j: nat) {
    j < |h| && exists i: nat, k: nat :: Waited(h, h[j].nextTid, i, k, j)
  }

  /** Positions at which a wait ends that is followed by another too soon. */
  ghost function FilteredAt(h: seq<WperfEvent>, thresholdNs: nat, n: nat): set<nat> {
    set j: nat | j < n && IsFiltered(h, thresholdNs, j)
  }

  ghost predicate IsFiltered(h: seq<WperfEvent>, thresholdNs: nat, j: nat) {
    EndsWait(h, j) && StopsAgain(h, thresholdNs, h[j].nextTid, j)
  }

  lemma FilteredIsFate(h: seq<WperfEvent>, thresholdNs: nat, j: nat)
    requires j < |h|
    ensures IsFiltered(h, thresholdNs, j) <==> FateOf(h, thresholdNs, j) == Filtered
  {
    EndsWaitIsFinish(h, j);
    SpuriousIsStopsAgain(h, thresholdNs, h[j].nextTid, j);
  }

  lemma FilteredAtStep(h: seq<WperfEvent>, thresholdNs: nat, n: nat)
    ensures FilteredAt(h, thresholdNs, n + 1)
         == if IsFiltered(h, thresholdNs, n) then FilteredAt(h, thresholdNs, n) + {n}
            else FilteredAt(h, thresholdNs, n)
  {}

  lemma EndsWaitIsFinish(h: seq<WperfEvent>, j: nat)
    ensures EndsWait(h, j) <==> Finishes(h, j)
  {
    if j < |h| {
      var t := h[j].nextTid;
      ResumesMeaning(h, j, t);
      if EndsWait(h, j) {
        var i: nat, k: nat :| Waited(h, t, i, k, j);
        WaitedIsEpisode(h, t, i, k, j);
      }
      if Finishes(h, j) {
        var i: nat, k: nat :| Episode(h, t, i, k, j);
        WaitedIsEpisode(h, t, i, k, j);
        assert Waited(h, t, i, k, j);
      }
    }
  }

  lemma {:induction false} FilteredAtGrows(h: seq<WperfEvent>, thresholdNs: nat, n: nat)
    requires n <= |h|
    ensures |FilteredAt(h, thresholdNs, n)| == Fates(Filtered, h, thresholdNs, n)
  {
    if n > 0 {
      var last: nat := n - 1;
      FilteredAtGrows(h, thresholdNs, last);
      FilteredIsFate(h, thresholdNs, last);
      FilteredAtStep(h, thresholdNs, last);
      OneMore(FilteredAt(h, thresholdNs, last), last, IsFiltered(h, thresholdNs, last), FilteredAt(h, thresholdNs, n));
    } else {
      assert FilteredAt(h, thresholdNs, n) == {};
    }
  }

  /** The filtered counter is the number of waits after which the thread stops
      again within the threshold. */
  lemma FilteredIsRead(h: seq<WperfEvent>, thresholdNs: nat, order: seq<u32>)
    requires Enumerates(order, Run(h, thresholdNs).pending.Keys)
    ensures Correlate(h, thresholdNs, order).stats.falseWakeupFiltered == |FilteredAt(h, thresholdNs, |h|)|
    ensures Correlate(h, thresholdNs, order).stats.eventsProcessed == |h|
  {
    TotalsAreHistory(h, thresholdNs, order);
    FilteredAtGrows(h, thresholdNs, |h|);
  }
}
