/** A thread that several others wait for, each for its own part of the time: all
    of them count (src/cascade/engine.rs). */
module SharedWaits {
  import opened Collections
  import opened GraphTypes
  import opened CascadeSpec
  import opened Attribution
  import opened CascadeReference
  import opened DepthLimit

  /** Throughout `w` thread `b` waits for `d` and for nobody else. */
  ghost predicate WaitsJustFor(es: seq<Edge>, b: ThreadId, d: ThreadId, w: TimeWindow) {
    && w.startMs < w.endMs
    && (forall f | f in es && f.weight.kind == Normal && f.src == b && Meet(f.weight.window, w) ::
          f.dst == d && f.weight.window.startMs <= w.startMs && w.endMs <= f.weight.window.endMs)
    && (exists f :: f in es && f.weight.kind == Normal && f.src == b && f.dst == d && Meet(f.weight.window, w))
  }

  ghost predicate NeverWaits(es: seq<Edge>, d: ThreadId) {
    forall f | f in es && f.weight.kind == Normal :: f.src != d
  }

  lemma Inside(w: TimeWindow, v: TimeWindow)
    requires v.startMs <= w.startMs < w.endMs <= v.endMs
    ensures Overlap(w, v) == Some(w)
  {
    assert Contains(w, w.startMs) && Contains(v, w.startMs);
  }

  lemma JustForIsSteady(es: seq<Edge>, b: ThreadId, d: ThreadId, w: TimeWindow)
    requires WaitsJustFor(es, b, d, w)
    ensures Steady(NormalWaits(es), b, {d}, w)
  {
    var waits := NormalWaits(es);
    forall x | x in waits && x.src == b && Overlap(w, x.window).Some?
      ensures Overlap(w, x.window) == Some(w) && x.dst == d
    {
      var f :| f in es && f.weight.kind == Normal && WaitOf(f) == x;
      MeetIsOverlap(w, x.window);
      assert Meet(f.weight.window, w);
      Inside(w, x.window);
    }
    var f :| f in es && f.weight.kind == Normal && f.src == b && f.dst == d && Meet(f.weight.window, w);
    Inside(w, f.weight.window);
    assert WaitOf(f) in waits;
  }

  /** An edge into such a thread keeps what the division at `d` discards: with k
      threads waiting for `d` during any part of the window, all but a k-th. */
  lemma PartialWaitersDivide(es: seq<Edge>, i: nat, d: ThreadId, maxDepth: nat, length: nat)
    requires RawIsDuration(es) && i < |es| && es[i].src != es[i].dst && maxDepth >= 2
    requires WaitsJustFor(es, es[i].dst, d, es[i].weight.window) && NeverWaits(es, d)
    requires length == es[i].weight.window.endMs - es[i].weight.window.startMs
    ensures Redistribute(es, LevelsBelowEntry(maxDepth))[i].weight.attributedDelayMs
         == length - length / Divisor(es, d, es[i].weight.window)
  {
    var divisor := Divisor(es, d, es[i].weight.window);
    PassesPortion(es, es[i], d, LevelsBelowEntry(maxDepth), length, divisor);
    EdgeLedger(es, LevelsBelowEntry(maxDepth), i);
    QuotientIsDivision(length, divisor);
  }

  lemma PassesPortion(es: seq<Edge>, e: Edge, d: ThreadId, left: Option<nat>, length: nat, divisor: nat)
    requires left != Some(0) && e.src != e.dst
    requires WaitsJustFor(es, e.dst, d, e.weight.window) && NeverWaits(es, d)
    requires length == Duration(e.weight.window) && divisor == Divisor(es, d, e.weight.window)
    ensures Propagated(NormalWaits(es), e, left) == Quotient(length, divisor)
  {
    JustForIsSteady(es, e.dst, d, e.weight.window);
    assert d !in Sources(NormalWaits(es));
    ThirdThread(NormalWaits(es), e.dst, d, e.weight.window, left, {e.src});
    WaitersAreCounted(es, d, e.weight.window);
  }

  // ---------- a concrete graph ----------

  const TEN: TimeWindow := Span(0, 10)
  const FIVE: TimeWindow := Span(0, 5)

  /** Thread 4 waits for thread 3 only half of the time that thread 2 does. */
  function HalfShared(): seq<Edge> {
    [Over(1, 2, TEN), Over(2, 3, TEN), Over(4, 3, FIVE)]
  }

  lemma HalfSharedWaiters(es: seq<Edge>)
    requires es == HalfShared()
    ensures Divisor(es, ThreadId(3), TEN) == 2
  {
    assert es[1] in es && es[2] in es;
    assert es[1].src in WaitingThreads(es, ThreadId(3), TEN) && es[2].src in WaitingThreads(es, ThreadId(3), TEN);
    assert WaitingThreads(es, ThreadId(3), TEN) == {ThreadId(2), ThreadId(4)};
  }

  /** The wait for thread 2 is halved all the same. */
  lemma HalfSharedIsHalved(es: seq<Edge>, maxDepth: nat)
    requires es == HalfShared() && maxDepth >= 2
    ensures Redistribute(es, LevelsBelowEntry(maxDepth))[0].weight.attributedDelayMs == 5
  {
    HalfSharedWaiters(es);
    assert es[1] in es && Meet(es[1].weight.window, TEN);
    PartialWaitersDivide(es, 0, ThreadId(3), maxDepth, 10);
  }
}
