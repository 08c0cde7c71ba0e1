/** The sweep-line partition computed over a graph (src/graph/sweep.rs). */
module SweepLine {
  import opened GraphTypes
  import opened Sweep
  import opened EdgeOrder
  import opened WaitGraph

  // ---------- `targets.sort(); targets.dedup()` ----------

  function InsertThread(sorted: seq<ThreadId>, t: ThreadId): seq<ThreadId> {
    if sorted == [] || t.id <= sorted[0].id then [t] + sorted
    else [sorted[0]] + InsertThread(sorted[1..], t)
  }

  function SortThreads(ts: seq<ThreadId>): seq<ThreadId> {
    if ts == [] then [] else InsertThread(SortThreads(ts[1..]), ts[0])
  }

  /** Keep the first of every run of equal neighbours. */
  function Dedup(ts: seq<ThreadId>): seq<ThreadId> {
    if |ts| < 2 then ts
    else if ts[0] == ts[1] then Dedup(ts[1..])
    else [ts[0]] + Dedup(ts[1..])
  }

  ghost predicate NonDescending(ts: seq<ThreadId>) {
    forall i, j | 0 <= i < j < |ts| :: ts[i].id <= ts[j].id
  }

  lemma {:induction false} InsertThreadSorts(sorted: seq<ThreadId>, t: ThreadId)
    requires NonDescending(sorted)
    ensures NonDescending(InsertThread(sorted, t))
    ensures forall x :: x in InsertThread(sorted, t) <==> x in sorted || x == t
  {
    if sorted != [] {
      InsertThreadSorts(sorted[1..], t);
      assert sorted == [sorted[0]] + sorted[1..];
      var rest := InsertThread(sorted[1..], t);
      assert forall i | 0 <= i < |rest| :: rest[i] in rest;
    }
  }

  lemma {:induction false} SortThreadsSorts(ts: seq<ThreadId>)
    ensures NonDescending(SortThreads(ts))
    ensures forall x :: x in SortThreads(ts) <==> x in ts
  {
    if ts != [] {
      SortThreadsSorts(ts[1..]);
      InsertThreadSorts(SortThreads(ts[1..]), ts[0]);
      assert ts == [ts[0]] + ts[1..];
    }
  }

  lemma {:induction false} DedupAscends(ts: seq<ThreadId>)
    requires NonDescending(ts)
    ensures Ascending(Dedup(ts))
    ensures forall x :: x in Dedup(ts) <==> x in ts
    ensures ts != [] ==> Dedup(ts) != [] && Dedup(ts)[0] == ts[0]
  {
    if |ts| >= 2 {
      DedupAscends(ts[1..]);
      assert ts == [ts[0]] + ts[1..];
    }
  }

  /** Sorting and deduplicating lists each distinct thread once, in order. */
  lemma SortDedup(ts: seq<ThreadId>, threads: set<ThreadId>)
    requires forall x :: x in ts <==> x in threads
    ensures Dedup(SortThreads(ts)) == SortedThreads(threads)
  {
    SortThreadsSorts(ts);
    DedupAscends(SortThreads(ts));
    SortedThreadsLists(threads);
    AscendingUnique(Dedup(SortThreads(ts)), SortedThreads(threads));
  }

  // ---------- clipping ----------

  ghost predicate Clippable(e: Edge, w: TimeWindow) {
    e.weight.kind == Normal && Overlap(w, e.weight.window).Some?
  }

  ghost function ClipsOfRows(rows: seq<Row>, w: TimeWindow): set<Clip> {
    set r | r in rows && Clippable(r.edge, w) :: Clip(Overlap(w, r.edge.weight.window).value, r.edge.dst)
  }

  lemma ClipsOfRowsSnoc(rows: seq<Row>, w: TimeWindow, i: nat)
    requires i < |rows|
    ensures ClipsOfRows(rows[..i + 1], w) ==
            ClipsOfRows(rows[..i], w)
            + if Clippable(rows[i].edge, w)
              then {Clip(Overlap(w, rows[i].edge.weight.window).value, rows[i].edge.dst)}
              else {}
  {
    assert rows[..i + 1] == rows[..i] + [rows[i]];
  }

  /** Clipping the outgoing rows of a node clips exactly its normal waits. */
  lemma RowsAreOutgoingWaits(es: seq<Edge>, rows: seq<Row>, node: ThreadId, w: TimeWindow)
    requires forall r :: r in rows <==> r.index < |es| && r.edge == es[r.index] && r.edge.src == node
    ensures ClipsOfRows(rows, w) == Clips(NormalWaits(es), node, w)
  {
    var waits := NormalWaits(es);
    forall c ensures c in ClipsOfRows(rows, w) <==> c in Clips(waits, node, w) {
      if c in Clips(waits, node, w) {
        var x :| x in waits && x.src == node && Overlap(w, x.window).Some?
                 && c == Clip(Overlap(w, x.window).value, x.dst);
        var e :| e in es && e.weight.kind == Normal && WaitOf(e) == x;
        var i :| 0 <= i < |es| && es[i] == e;
        assert Row(i, e) in rows && Clippable(Row(i, e).edge, w);
      }
      if c in ClipsOfRows(rows, w) {
        var r :| r in rows && Clippable(r.edge, w)
                 && c == Clip(Overlap(w, r.edge.weight.window).value, r.edge.dst);
        assert WaitOf(r.edge) in waits;
      }
    }
  }

  function ActiveIn(clipped: seq<Clip>, s: nat, e: nat): seq<ThreadId> {
    if clipped == [] then []
    else
      var c := clipped[0];
      (if c.window.startMs <= s && c.window.endMs >= e then [c.target] else [])
      + ActiveIn(clipped[1..], s, e)
  }

  lemma {:induction false} ActiveInElements(clipped: seq<Clip>, s: nat, e: nat)
    ensures forall t :: t in ActiveIn(clipped, s, e) <==>
              exists c :: c in clipped && c.window.startMs <= s && c.window.endMs >= e && c.target == t
  {
    if clipped != [] {
      ActiveInElements(clipped[1..], s, e);
      assert clipped == [clipped[0]] + clipped[1..];
    }
  }

  ghost function ClipSet(clipped: seq<Clip>): set<Clip> {
    set c | c in clipped
  }

  lemma ActiveInIsActiveTargets(clipped: seq<Clip>, s: nat, e: nat)
    ensures Dedup(SortThreads(ActiveIn(clipped, s, e))) == SortedThreads(ActiveTargets(ClipSet(clipped), s, e))
  {
    ActiveInElements(clipped, s, e);
    forall t ensures t in ActiveIn(clipped, s, e) <==> t in ActiveTargets(ClipSet(clipped), s, e) {
      if t in ActiveIn(clipped, s, e) {
        var c :| c in clipped && c.window.startMs <= s && c.window.endMs >= e && c.target == t;
        assert c in ClipSet(clipped);
      }
    }
    SortDedup(ActiveIn(clipped, s, e), ActiveTargets(ClipSet(clipped), s, e));
  }

  method ClipOutgoing(graph: WaitForGraph, node: ThreadId, w: TimeWindow) returns (clipped: seq<Clip>)
    requires graph.Valid()
    ensures ClipSet(clipped) == Clips(NormalWaits(graph.Edges()), node, w)
  {
    clipped := [];
    var index := graph.NodeIndex(node);
    if index.None? {
      assert Clips(NormalWaits(graph.Edges()), node, w) == {} by {
        RowsAreOutgoingWaits(graph.Edges(), [], node, w);
      }
      return;
    }
    var rows := graph.OutgoingEdges(index.value, |graph.edges|);
    for i := 0 to |rows|
      invariant ClipSet(clipped) == ClipsOfRows(rows[..i], w)
    {
      ClipsOfRowsSnoc(rows, w, i);
      var e := rows[i].edge;
      if e.weight.kind == Normal {
        var overlap := Overlap(w, e.weight.window);
        if overlap.Some? {
          clipped := clipped + [Clip(overlap.value, e.dst)];
        }
      }
    }
    assert rows[..|rows|] == rows;
    RowsAreOutgoingWaits(graph.Edges(), rows, node, w);
  }

  method BoundaryPoints(clipped: seq<Clip>) returns (points: set<nat>)
    ensures points == Boundaries(ClipSet(clipped))
  {
    points := {};
    for i := 0 to |clipped|
      invariant points == Boundaries(ClipSet(clipped[..i]))
    {
      assert clipped[..i + 1] == clipped[..i] + [clipped[i]];
      points := points + {clipped[i].window.startMs} + {clipped[i].window.endMs};
      BoundariesSnoc(clipped[..i], clipped[i]);
    }
    assert clipped[..|clipped|] == clipped;
  }

  lemma BoundariesSnoc(clipped: seq<Clip>, c: Clip)
    ensures Boundaries(ClipSet(clipped + [c]))
         == Boundaries(ClipSet(clipped)) + {c.window.startMs} + {c.window.endMs}
  {
    var more := clipped + [c];
    assert ClipSet(more) == ClipSet(clipped) + {c};
  }

  /** One step of the sweep: the gap between two consecutive points. */
  lemma EmitStep(clipped: seq<Clip>, points: seq<nat>, k: nat, done: seq<ElementaryInterval>)
    requires k + 1 < |points|
    ensures var active := ActiveIn(clipped, points[k], points[k + 1]);
            done + Emit(ClipSet(clipped), points[k..]) ==
            (if points[k] >= points[k + 1] || active == [] then done
             else done + [ElementaryInterval(Span(points[k], points[k + 1]), Dedup(SortThreads(active)))])
            + Emit(ClipSet(clipped), points[k + 1..])
  {
    var s, e := points[k], points[k + 1];
    var active := ActiveIn(clipped, s, e);
    ActiveInIsActiveTargets(clipped, s, e);
    SortedThreadsLists(ActiveTargets(ClipSet(clipped), s, e));
    SortThreadsSorts(active);
    DedupAscends(SortThreads(active));
    assert active != [] ==> active[0] in SortThreads(active);
    assert points[k..][1..] == points[k + 1..];
    assert |points[k..]| >= 2 && points[k..][0] == s && points[k..][1] == e;
  }

  /** Sweep left to right over the distinct boundary points. */
  method EmitIntervals(clipped: seq<Clip>, points: seq<nat>) returns (result: seq<ElementaryInterval>)
    ensures result == Emit(ClipSet(clipped), points)
  {
    result := [];
    var k := 0;
    while k + 1 < |points|
      invariant 0 <= k <= |points|
      invariant result + Emit(ClipSet(clipped), points[k..]) == Emit(ClipSet(clipped), points)
    {
      EmitStep(clipped, points, k, result);
      var s, e := points[k], points[k + 1];
      if s < e {
        var targets := ActiveIn(clipped, s, e);
        if targets != [] {
          result := result + [ElementaryInterval(Span(s, e), Dedup(SortThreads(targets)))];
        }
      }
      k := k + 1;
    }
  }

  /** Clip, collect the distinct boundary points, sweep. */
  method SweepLinePartition(graph: WaitForGraph, node: ThreadId, w: TimeWindow)
    returns (result: seq<ElementaryInterval>)
    requires graph.Valid()
    ensures result == Partition(NormalWaits(graph.Edges()), node, w)
  {
    var clipped := ClipOutgoing(graph, node, w);
    if clipped == [] {
      assert Boundaries(ClipSet(clipped)) == {};
      SortedPointsList({});
      return [];
    }
    var points := BoundaryPoints(clipped);
    result := EmitIntervals(clipped, SortedPoints(points));
  }
}
