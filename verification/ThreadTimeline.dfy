/** A thread waits for one other at a time: its scheduler waits in the finished
    graph never overlap, so an elementary interval has at most two targets
    (src/correlate.rs, src/graph/sweep.rs). */
module ThreadTimeline {
  import opened Collections
  import opened GraphTypes
  import opened Events
  import opened EventOrder
  import opened CorrelateSpec
  import opened CorrelateBooks
  import opened CorrelateHistory
  import opened CorrelateEdges
  import opened CorrelateWindows
  import opened Sweep

  /** A wait edge of thread `t`, as opposed to its disk edges. */
  ghost predicate ThreadWait(e: Edge, t: ThreadId) {
    e.src == t && IsSchedulerEdge(e)
  }

  ghost predicate Apart(e: Edge, f: Edge) {
    Overlap(e.weight.window, f.weight.window) == None
  }

  /** No two entries of the bag are overlapping waits of one thread. */
  ghost predicate OneAtATime(bag: multiset<Edge>) {
    forall t, e, f | ThreadWait(e, t) && ThreadWait(f, t) && e in bag && f in bag - multiset{e} :: Apart(e, f)
  }

  /** A thread comes back from one episode before it blocks for the next. */
  lemma EpisodesInTurn(h: seq<WperfEvent>, t: u32, i: nat, k: nat, j: nat, i': nat, k': nat, j': nat)
    requires Episode(h, t, i, k, j) && Episode(h, t, i', k', j') && j < j'
    ensures j < i'
  {
    var past := h[..j'];
    assert past[j] == h[j] && past[i'] == h[i'];
  }

  lemma WaitsInTurn(h: seq<WperfEvent>, j: nat, j': nat)
    requires TimeOrdered(h) && Finishes(h, j) && Finishes(h, j') && j < j'
    requires WaitEdge(h, j).src == WaitEdge(h, j').src
    ensures Apart(WaitEdge(h, j), WaitEdge(h, j'))
  {
    var i, k := FinishedWait(h, j);
    var i', k' := FinishedWait(h, j');
    EpisodesInTurn(h, h[j].nextTid, i, k, j, i', k', j');
    MillisecondsInOrder(h, j, i');
  }

  lemma MillisecondsInOrder(h: seq<WperfEvent>, i: nat, j: nat)
    requires TimeOrdered(h) && i < j < |h|
    ensures h[i].timestampNs / NS_PER_MS <= h[j].timestampNs / NS_PER_MS
  {
    assert h[i].timestampNs <= h[j].timestampNs;
  }

  /** A thread wait that the history owes is the wait of one of its episodes. */
  lemma OwedWait(h: seq<WperfEvent>, thresholdNs: nat, j: nat, e: Edge, t: ThreadId)
    requires e in Owed(h, thresholdNs, j) && ThreadWait(e, t)
    ensures Finishes(h, j) && e == WaitEdge(h, j)
  {}

  lemma NewestWaitIsApart(h: seq<WperfEvent>, thresholdNs: nat, n: nat, e: Edge, f: Edge, t: ThreadId)
    requires TimeOrdered(h) && n < |h| && ThreadWait(e, t) && ThreadWait(f, t)
    requires e in SumBags(OwedBags(h, thresholdNs, n)) && f in Owed(h, thresholdNs, n)
    ensures Apart(e, f) && Apart(f, e)
  {
    var j := InSomeBag(OwedBags(h, thresholdNs, n), e);
    OwedWait(h, thresholdNs, j, e, t);
    OwedWait(h, thresholdNs, n, f, t);
    WaitsInTurn(h, j, n);
  }

  lemma OwedOnce(h: seq<WperfEvent>, thresholdNs: nat, n: nat, e: Edge, f: Edge, t: ThreadId)
    requires n < |h| && ThreadWait(e, t) && ThreadWait(f, t) && e in Owed(h, thresholdNs, n)
    ensures f !in Owed(h, thresholdNs, n) - multiset{e}
  {
    OwedWait(h, thresholdNs, n, e, t);
  }

  lemma PairApart(h: seq<WperfEvent>, thresholdNs: nat, n: nat, before: multiset<Edge>, e: Edge, f: Edge, t: ThreadId)
    requires TimeOrdered(h) && n < |h| && before == SumBags(OwedBags(h, thresholdNs, n)) && OneAtATime(before)
    requires ThreadWait(e, t) && ThreadWait(f, t)
    requires e in before + Owed(h, thresholdNs, n) && f in (before + Owed(h, thresholdNs, n)) - multiset{e}
    ensures Apart(e, f)
  {
    FromEither(before, Owed(h, thresholdNs, n), e, f);
    if e in Owed(h, thresholdNs, n) && f in before {
      NewestWaitIsApart(h, thresholdNs, n, f, e, t);
    } else if e in before && f in Owed(h, thresholdNs, n) {
      NewestWaitIsApart(h, thresholdNs, n, e, f, t);
    } else if e in Owed(h, thresholdNs, n) {
      OwedOnce(h, thresholdNs, n, e, f, t);
    }
  }

  lemma {:induction false} OwedOneAtATime(h: seq<WperfEvent>, thresholdNs: nat, n: nat)
    requires TimeOrdered(h) && n <= |h|
    ensures OneAtATime(SumBags(OwedBags(h, thresholdNs, n)))
  {
    if n > 0 {
      var bags, last := OwedBags(h, thresholdNs, n - 1), Owed(h, thresholdNs, n - 1);
      assert OwedBags(h, thresholdNs, n)[..n - 1] == bags;
      OwedOneAtATime(h, thresholdNs, n - 1);
      var all := SumBags(bags) + last;
      forall t, e, f | ThreadWait(e, t) && ThreadWait(f, t) && e in all && f in all - multiset{e}
        ensures Apart(e, f)
      {
        PairApart(h, thresholdNs, n - 1, SumBags(bags), e, f, t);
      }
    }
  }

  /** Two entries of a sum come from the two parts, or both from one of them. */
  lemma FromEither(a: multiset<Edge>, b: multiset<Edge>, e: Edge, f: Edge)
    requires e in a + b && f in (a + b) - multiset{e}
    ensures (e in a && f in a - multiset{e}) || (e in b && f in b - multiset{e})
            || (e in a && f in b) || (e in b && f in a)
  {}

  lemma TwoEntries(es: seq<Edge>, i: nat, j: nat)
    requires i < |es| && j < |es| && i != j
    ensures es[i] in multiset(es) && es[j] in multiset(es) - multiset{es[i]}
  {
    assert es == es[..i] + [es[i]] + es[i + 1..];
    if j < i {
      assert es[j] in es[..i];
    } else {
      assert es[i + 1..][j - i - 1] == es[j];
    }
  }

  /** On time-ordered input two scheduler edges that leave the same thread never
      overlap in the finished graph. */
  lemma WaitsNeverOverlap(h: seq<WperfEvent>, thresholdNs: nat, order: seq<u32>, t: ThreadId, i: nat, j: nat)
    requires TimeOrdered(h) && Enumerates(order, Run(h, thresholdNs).pending.Keys)
    requires var es := Correlate(h, thresholdNs, order).edges;
             i < |es| && j < |es| && i != j && ThreadWait(es[i], t) && ThreadWait(es[j], t)
    ensures var es := Correlate(h, thresholdNs, order).edges;
            Apart(es[i], es[j])
  {
    GraphIsHistory(h, thresholdNs, order);
    OwedOneAtATime(h, thresholdNs, |h|);
    TwoEntries(Correlate(h, thresholdNs, order).edges, i, j);
  }

  // ---------- what the sweep line sees ----------

  lemma NormalEdgeOfThread(h: seq<WperfEvent>, thresholdNs: nat, order: seq<u32>, t: ThreadId, m: int,
                           target: ThreadId) returns (i: nat)
    requires target != DISK_TID
    requires target in WaitedFor(NormalWaits(Correlate(h, thresholdNs, order).edges), t, m)
    ensures var es := Correlate(h, thresholdNs, order).edges;
            i < |es| && ThreadWait(es[i], t) && es[i].dst == target && Contains(es[i].weight.window, m)
  {
    var es := Correlate(h, thresholdNs, order).edges;
    var x :| x in NormalWaits(es) && x.src == t && Contains(x.window, m) && x.dst == target;
    var e :| e in es && e.weight.kind == Normal && WaitOf(e) == x;
    GraphIsWellBuilt(h, thresholdNs, order);
    i :| 0 <= i < |es| && es[i] == e;
  }

  /** At any millisecond a thread waits for at most one thread besides the disk. */
  lemma OneThreadAtATime(h: seq<WperfEvent>, thresholdNs: nat, order: seq<u32>, t: ThreadId, m: int,
                         a: ThreadId, b: ThreadId)
    requires TimeOrdered(h) && Enumerates(order, Run(h, thresholdNs).pending.Keys)
    requires a != DISK_TID && b != DISK_TID
    requires var waits := NormalWaits(Correlate(h, thresholdNs, order).edges);
             a in WaitedFor(waits, t, m) && b in WaitedFor(waits, t, m)
    ensures a == b
  {
    var i := NormalEdgeOfThread(h, thresholdNs, order, t, m, a);
    var j := NormalEdgeOfThread(h, thresholdNs, order, t, m, b);
    if i != j {
      WaitsNeverOverlap(h, thresholdNs, order, t, i, j);
    }
  }

  /** In a correlated graph an elementary interval has one target, or two of
      which the first is the disk. */
  lemma AtMostTwoTargets(h: seq<WperfEvent>, thresholdNs: nat, order: seq<u32>, t: ThreadId, w: TimeWindow, k: nat)
    requires TimeOrdered(h) && Enumerates(order, Run(h, thresholdNs).pending.Keys)
    requires k < |Partition(NormalWaits(Correlate(h, thresholdNs, order).edges), t, w)|
    ensures var targets := Partition(NormalWaits(Correlate(h, thresholdNs, order).edges), t, w)[k].targets;
            |targets| == 1 || (|targets| == 2 && targets[0] == DISK_TID)
  {
    var waits := NormalWaits(Correlate(h, thresholdNs, order).edges);
    var interval := Partition(waits, t, w)[k];
    var m: int := interval.window.startMs;
    PartitionTargets(waits, t, w, k);
    forall x, y | x in interval.targets && y in interval.targets && x != DISK_TID && y != DISK_TID ensures x == y {
      OneThreadAtATime(h, thresholdNs, order, t, m, x, y);
    }
    DiskAndOne(h, thresholdNs, order, t, m, interval.targets);
  }

  lemma PartitionTargets(waits: set<Wait>, t: ThreadId, w: TimeWindow, k: nat)
    requires k < |Partition(waits, t, w)|
    ensures var interval := Partition(waits, t, w)[k];
            && interval.targets != [] && GraphTypes.Ascending(interval.targets)
            && forall x | x in interval.targets :: x in WaitedFor(waits, t, interval.window.startMs)
  {
    PartitionExact(waits, t, w);
    var m: int := Partition(waits, t, w)[k].window.startMs;
    assert Contains(w, m) && Contains(Partition(waits, t, w)[k].window, m);
    assert ExactAt(Partition(waits, t, w), m, WaitedFor(waits, t, m));
    SortedThreadsLists(WaitedFor(waits, t, m));
  }

  lemma TwoBesides(targets: seq<ThreadId>, t: ThreadId) returns (x: ThreadId, y: ThreadId)
    requires |targets| >= 3 && GraphTypes.Ascending(targets)
    ensures x in targets && y in targets && x != y && x != t && y != t
  {
    var a, b, c := targets[0], targets[1], targets[2];
    assert a in targets && b in targets && c in targets;
    x, y := if a == t then b else a, if c == t then b else c;
  }

  lemma DiskAndOne(h: seq<WperfEvent>, thresholdNs: nat, order: seq<u32>, t: ThreadId, m: int, targets: seq<ThreadId>)
    requires targets != [] && GraphTypes.Ascending(targets)
    requires forall x | x in targets :: x in WaitedFor(NormalWaits(Correlate(h, thresholdNs, order).edges), t, m)
    requires forall x, y | x in targets && y in targets && x != DISK_TID && y != DISK_TID :: x == y
    ensures |targets| == 1 || (|targets| == 2 && targets[0] == DISK_TID)
  {
    forall x | x in targets && x != DISK_TID ensures x.id >= 0 {
      var i := NormalEdgeOfThread(h, thresholdNs, order, t, m, x);
    }
    assert forall k | 0 <= k < |targets| :: targets[k] in targets;
    if |targets| >= 2 {
      var x, y := targets[0], targets[1];
      assert x == DISK_TID || y == DISK_TID;
      if |targets| >= 3 {
        var p, q := TwoBesides(targets, DISK_TID);
        assert false;
      }
    }
  }
}
