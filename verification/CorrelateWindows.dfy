/** The windows of the edges in the finished graph, and the pairing of its disk
    edges (src/correlate.rs). */
module CorrelateWindows {
  import opened Collections
  import opened GraphTypes
  import opened Events
  import opened EventOrder
  import opened CorrelateSpec
  import opened CorrelateHistory
  import opened CorrelateTables
  import opened CorrelateEdges

  // ---------- truncation to milliseconds ----------

  /** On time-ordered input a wait edge starts in the millisecond of the
      switch-out and is as long as the wait, in whole milliseconds; so it ends at
      most one millisecond before the millisecond of the switch-in. */
  lemma EpisodeWindowError(h: seq<WperfEvent>, t: u32, i: nat, k: nat, j: nat)
    requires TimeOrdered(h) && Episode(h, t, i, k, j)
    ensures var w := EpisodeDeferral(h, t, i, k, j).window;
            && w.startMs == h[i].timestampNs / 1_000_000
            && w.endMs == w.startMs + (h[j].timestampNs - h[i].timestampNs) / 1_000_000
            && w.endMs <= h[j].timestampNs / 1_000_000 <= w.endMs + 1
  {
    assert h[i].timestampNs <= h[j].timestampNs;
  }

  /** A disk edge pair spans exactly the milliseconds of request and completion. */
  lemma DiskWindowIsExact(h: seq<WperfEvent>, i: nat, j: nat)
    requires TimeOrdered(h) && j < |h| && InFlight(h[..j], KeyOf(h[j]), i)
    ensures ServiceWindow(h[i].timestampNs, h[j].timestampNs)
         == Span(h[i].timestampNs / 1_000_000, h[j].timestampNs / 1_000_000)
  {
    assert h[i].timestampNs <= h[j].timestampNs;
  }

  // ---------- every edge of the finished graph ----------

  /** `e` is the wait of an episode of some thread: it starts in the millisecond
      of the switch-out and is as long as the wait, in whole milliseconds. */
  ghost predicate TimedWait(h: seq<WperfEvent>, e: Edge, t: u32, i: nat, k: nat, j: nat) {
    && Episode(h, t, i, k, j)
    && e.src == ThreadId(t) && e.dst == ThreadId(h[k].prevTid) && e.weight.kind == Normal
    && e.weight.window.startMs == h[i].timestampNs / 1_000_000
    && e.weight.rawWaitMs == (h[j].timestampNs - h[i].timestampNs) / 1_000_000
    && e.weight.window.endMs == e.weight.window.startMs + e.weight.rawWaitMs
  }

  /** `e` is one of the two edges of a request issued at `i` and completed at `j`,
      and its window is exactly theirs. */
  ghost predicate TimedRequest(h: seq<WperfEvent>, e: Edge, i: nat, j: nat) {
    && j < |h| && h[j].Kind() == Some(IoComplete) && InFlight(h[..j], KeyOf(h[j]), i)
    && e.weight.window == Span(h[i].timestampNs / 1_000_000, h[j].timestampNs / 1_000_000)
    && (if e.weight.kind == Normal then e.src == ThreadId(h[i].tid) && e.dst == DISK_TID
        else e.src == DISK_TID && e.dst == ThreadId(h[i].tid))
  }

  ghost predicate Timed(h: seq<WperfEvent>, e: Edge) {
    || (exists t: u32, i: nat, k: nat, j: nat :: TimedWait(h, e, t, i, k, j))
    || (exists i: nat, j: nat :: TimedRequest(h, e, i, j))
  }

  /** A finished wait is that of an episode. */
  lemma FinishedWait(h: seq<WperfEvent>, j: nat) returns (i: nat, k: nat)
    requires TimeOrdered(h) && Finishes(h, j)
    ensures Episode(h, h[j].nextTid, i, k, j) && i < j
    ensures TimedWait(h, WaitEdge(h, j), h[j].nextTid, i, k, j)
    ensures WaitEdge(h, j).src == ThreadId(h[j].nextTid)
  {
    var t := h[j].nextTid;
    ResumesMeaning(h, j, t);
    i, k :| Episode(h, t, i, k, j);
    DeferralIsEpisode(h, t, i, k, j);
    EpisodeWindowError(h, t, i, k, j);
    assert h[k] == h[..j][k];
  }

  lemma DiskIsTimed(h: seq<WperfEvent>, j: nat, e: Edge)
    requires TimeOrdered(h) && Completes(h, j) && e in DiskEdges(h, j)
    ensures Timed(h, e)
  {
    IoIndexMeaning(h[..j], KeyOf(h[j]));
    var i := IoIndex(h[..j], KeyOf(h[j])).value;
    assert InFlight(h[..j], KeyOf(h[j]), i);
    assert h[..j][i] == h[i];
    DiskWindowIsExact(h, i, j);
    assert TimedRequest(h, e, i, j);
  }

  lemma {:induction false} InSomeBag(bags: seq<multiset<Edge>>, e: Edge) returns (j: nat)
    requires e in SumBags(bags)
    ensures j < |bags| && e in bags[j]
  {
    if e in bags[|bags| - 1] {
      j := |bags| - 1;
    } else {
      j := InSomeBag(bags[..|bags| - 1], e);
    }
  }

  /** On time-ordered input every edge of the finished graph has the window of
      the episode or request it stands for. */
  lemma EveryEdgeIsTimed(h: seq<WperfEvent>, thresholdNs: nat, order: seq<u32>, e: Edge)
    requires TimeOrdered(h) && Enumerates(order, Run(h, thresholdNs).pending.Keys)
    requires e in Correlate(h, thresholdNs, order).edges
    ensures Timed(h, e)
  {
    GraphIsHistory(h, thresholdNs, order);
    assert e in multiset(Correlate(h, thresholdNs, order).edges);
    var j := InSomeBag(OwedBags(h, thresholdNs, |h|), e);
    if Finishes(h, j) {
      var i, k := FinishedWait(h, j);
    } else {
      DiskIsTimed(h, j, e);
    }
  }

  // ---------- one closure return for each request ----------

  /** Per thread and window, as many returns as requests. */
  ghost predicate PairedByWindow(es: multiset<Edge>) {
    forall t: ThreadId, w: TimeWindow :: es[RequestEdge(t, w)] == es[ReturnEdge(t, w)]
  }

  lemma OwedIsPaired(h: seq<WperfEvent>, thresholdNs: nat, j: nat)
    ensures PairedByWindow(Owed(h, thresholdNs, j))
  {
    if Finishes(h, j) {
      var e := WaitEdge(h, j);
      assert e.dst.id >= 0 && e.weight.kind == Normal;
    } else if Completes(h, j) {
      IoIndexInRange(h[..j], KeyOf(h[j]));
      var i := IoIndex(h[..j], KeyOf(h[j])).value;
      var user, w := ThreadId(h[i].tid), ServiceWindow(h[i].timestampNs, h[j].timestampNs);
      assert DiskEdges(h, j) == multiset{RequestEdge(user, w), ReturnEdge(user, w)};
    }
  }

  lemma {:induction false} SumIsPaired(bags: seq<multiset<Edge>>)
    requires forall j | 0 <= j < |bags| :: PairedByWindow(bags[j])
    ensures PairedByWindow(SumBags(bags))
  {
    if bags != [] {
      SumIsPaired(bags[..|bags| - 1]);
    }
  }

  /** In the finished graph every completed request has its own closure return,
      over the same window. */
  lemma RequestsAreAnswered(h: seq<WperfEvent>, thresholdNs: nat, order: seq<u32>)
    requires Enumerates(order, Run(h, thresholdNs).pending.Keys)
    ensures PairedByWindow(multiset(Correlate(h, thresholdNs, order).edges))
  {
    GraphIsHistory(h, thresholdNs, order);
    var bags := OwedBags(h, thresholdNs, |h|);
    forall j | 0 <= j < |bags| ensures PairedByWindow(bags[j]) {
      OwedIsPaired(h, thresholdNs, j);
    }
    SumIsPaired(bags);
  }
}
