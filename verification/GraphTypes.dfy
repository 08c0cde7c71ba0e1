/** Value types of the Wait-For Graph (src/graph/types.rs). Times are whole
    milliseconds; windows are half-open. */
module GraphTypes {
  import opened Collections

  datatype ThreadId = ThreadId(id: int)

  const DISK_TID: ThreadId := ThreadId(-5)

  datatype Span = Span(startMs: nat, endMs: nat)

  /** A window whose end is not before its start, as `TimeWindow::new` asserts. */
  type TimeWindow = s: Span | s.startMs <= s.endMs witness Span(0, 0)

  function Duration(w: TimeWindow): nat {
    w.endMs - w.startMs
  }

  predicate Contains(w: TimeWindow, pointMs: int) {
    w.startMs <= pointMs < w.endMs
  }

  function Overlap(a: TimeWindow, b: TimeWindow): (o: Option<TimeWindow>)
    ensures o.Some? ==> forall p :: Contains(o.value, p) <==> Contains(a, p) && Contains(b, p)
    ensures o.Some? <==> exists p :: Contains(a, p) && Contains(b, p)
  {
    var s := Max(a.startMs, b.startMs);
    var e := Min(a.endMs, b.endMs);
    if s < e then
      assert Contains(a, s) && Contains(b, s);
      Some(Span(s, e))
    else None
  }

  datatype WaitType =
    | Unknown
    | FutexWait
    | FutexLockPi
    | FutexWaitBitset
    | FutexWaitRequeuePi
    | IoBlock

  datatype EdgeKind = Normal | SyntheticClosureReturn

  datatype EdgeWeight = EdgeWeight(
    window: TimeWindow,
    rawWaitMs: nat,
    attributedDelayMs: nat,
    waitType: Option<WaitType>,
    kind: EdgeKind)

  function NewWeight(w: TimeWindow, waitType: Option<WaitType>, kind: EdgeKind): EdgeWeight {
    EdgeWeight(w, Duration(w), Duration(w), waitType, kind)
  }

  datatype NodeKind = UserThread | KernelThread | PseudoDisk | PseudoNic | PseudoSoftirq

  /** An edge as its readers see it: endpoints named by thread, not by node index. */
  datatype Edge = Edge(src: ThreadId, dst: ThreadId, weight: EdgeWeight)

  function WithDelay(e: Edge, delayMs: nat): Edge {
    e.(weight := e.weight.(attributedDelayMs := delayMs))
  }

  /** The part of a normal edge that cascade redistribution may look at. */
  datatype Wait = Wait(src: ThreadId, dst: ThreadId, window: TimeWindow)

  function WaitOf(e: Edge): Wait {
    Wait(e.src, e.dst, e.weight.window)
  }

  /** The set of normal waits of an edge list: order, multiplicity, annotations
      and closure-return edges are forgotten. */
  ghost function NormalWaits(es: seq<Edge>): set<Wait> {
    set e | e in es && e.weight.kind == Normal :: WaitOf(e)
  }

  datatype ElementaryInterval = ElementaryInterval(window: TimeWindow, targets: seq<ThreadId>)

  ghost predicate Ascending(s: seq<ThreadId>) {
    forall i, j | 0 <= i < j < |s| :: s[i].id < s[j].id
  }

  ghost predicate Names(ts: seq<ThreadId>, ids: seq<int>) {
    |ts| == |ids| && forall i | 0 <= i < |ids| :: ts[i] == ThreadId(ids[i])
  }

  /** The members of `s` in ascending order, each once. */
  function SortedThreads(s: set<ThreadId>): seq<ThreadId> {
    var ids := SortedSeq(set t | t in s :: t.id);
    seq(|ids|, i requires 0 <= i < |ids| => ThreadId(ids[i]))
  }

  lemma SortedThreadsLists(s: set<ThreadId>)
    ensures Ascending(SortedThreads(s)) && |SortedThreads(s)| == |s|
    ensures forall t :: t in SortedThreads(s) <==> t in s
  {
    var ids, ts := SortedSeq(set t | t in s :: t.id), SortedThreads(s);
    SortedSeqLists(set t | t in s :: t.id);
    assert Names(ts, ids);
    forall t ensures t in ts <==> t in s {
      if t in s {
        assert t.id in ids;
        var i :| 0 <= i < |ids| && ids[i] == t.id;
        assert ts[i] == t;
      }
      if t in ts {
        var i :| 0 <= i < |ts| && ts[i] == t;
        assert ids[i] in ids;
      }
    }
    DistinctSize(ts, s);
  }

  lemma AscendingUnique(a: seq<ThreadId>, b: seq<ThreadId>)
    requires Ascending(a) && Ascending(b)
    requires forall t :: t in a <==> t in b
    ensures a == b
  {
    var xs, ys := IdsOf(a), IdsOf(b);
    forall x ensures x in xs <==> x in ys {
      SameIds(a, b, x);
      SameIds(b, a, x);
    }
    IncreasingUnique(xs, ys);
    assert forall i | 0 <= i < |a| :: a[i].id == xs[i] && b[i].id == ys[i];
  }

  ghost function IdsOf(ts: seq<ThreadId>): seq<int> {
    seq(|ts|, i requires 0 <= i < |ts| => ts[i].id)
  }

  lemma SameIds(a: seq<ThreadId>, b: seq<ThreadId>, x: int)
    requires forall t :: t in a ==> t in b
    ensures x in IdsOf(a) ==> x in IdsOf(b)
  {
    if x in IdsOf(a) {
      var i :| 0 <= i < |a| && IdsOf(a)[i] == x;
      assert a[i] in b;
      var j :| 0 <= j < |b| && b[j] == a[i];
      assert IdsOf(b)[j] == x;
    }
  }
}
