/** The drain order of the leftover table cannot be seen in the reported
    result (src/correlate.rs, src/graph/wfg.rs, src/cascade/engine.rs). */
module ReportOrder {
  import opened Collections
  import opened GraphTypes
  import opened Events
  import opened CorrelateSpec
  import opened CorrelateBooks
  import opened Attribution
  import opened EdgeOrder

  ghost function Strip(rows: seq<Row>): seq<Edge> {
    seq(|rows|, i requires 0 <= i < |rows| => rows[i].edge)
  }

  /** The edges of a graph in the order every consumer reads them. */
  ghost function Reported(es: seq<Edge>): seq<Edge> {
    Strip(StableSort(Rows(es)))
  }

  ghost function Keyed(es: seq<Edge>, k: Edge): seq<Edge> {
    if es == [] then []
    else Keyed(es[..|es| - 1], k) + if SameKey(es[|es| - 1], k) then [es[|es| - 1]] else []
  }

  ghost predicate InKeyOrder(es: seq<Edge>) {
    forall i, j | 0 <= i < j < |es| :: KeyLe(es[i], es[j])
  }

  lemma {:induction false} StripKeyed(rows: seq<Row>, k: Edge)
    ensures Strip(WithKey(rows, k)) == Keyed(Strip(rows), k)
  {
    if rows == [] {
      assert Strip(rows) == [];
    } else {
      var init, last := rows[..|rows| - 1], rows[|rows| - 1];
      StripKeyed(init, k);
      assert Strip(rows)[..|rows| - 1] == Strip(init);
    }
  }

  lemma {:induction false} KeyedElements(es: seq<Edge>, k: Edge)
    ensures forall e :: e in Keyed(es, k) <==> e in es && SameKey(e, k)
  {
    if es != [] {
      KeyedElements(es[..|es| - 1], k);
      assert es == es[..|es| - 1] + [es[|es| - 1]];
    }
  }

  /** A key-ordered list is determined by its sublist for each key. */
  lemma {:induction false} KeyOrderUnique(a: seq<Edge>, b: seq<Edge>)
    requires InKeyOrder(a) && InKeyOrder(b)
    requires forall k :: Keyed(a, k) == Keyed(b, k)
    ensures a == b
  {
    forall e ensures e in a <==> e in b {
      KeyedElements(a, e);
      KeyedElements(b, e);
      assert Keyed(a, e) == Keyed(b, e);
    }
    assert a != [] ==> a[|a| - 1] in b;
    assert b != [] ==> b[|b| - 1] in a;
    if a != [] {
      var x, y := a[|a| - 1], b[|b| - 1];
      assert SameKey(x, y);
      var a', b' := a[..|a| - 1], b[..|b| - 1];
      assert Keyed(a, x) == Keyed(a', x) + [x];
      assert Keyed(b, x) == Keyed(b', x) + [y];
      assert Keyed(a, x)[|Keyed(a, x)| - 1] == x;
      assert Keyed(b, x)[|Keyed(b, x)| - 1] == y;
      assert Keyed(a, x) == Keyed(b, x);
      forall k ensures Keyed(a', k) == Keyed(b', k) {
        var u := if SameKey(x, k) then [x] else [];
        assert Keyed(a, k) == Keyed(a', k) + u && Keyed(b, k) == Keyed(b', k) + u;
        assert Keyed(a', k) == Keyed(a, k)[..|Keyed(a, k)| - |u|];
        assert Keyed(b', k) == Keyed(b, k)[..|Keyed(b, k)| - |u|];
      }
      KeyOrderUnique(a', b');
    }
  }

  lemma ReportedIsKeyOrdered(es: seq<Edge>)
    ensures InKeyOrder(Reported(es))
    ensures forall k :: Keyed(Reported(es), k) == Keyed(es, k)
  {
    var rows := StableSort(Rows(es));
    StableSortCorrect(Rows(es));
    assert Strip(Rows(es)) == es;
    forall k ensures Keyed(Reported(es), k) == Keyed(es, k) {
      StripKeyed(rows, k);
      StripKeyed(Rows(es), k);
    }
  }

  /** What is reported depends only on the order among edges with equal
      endpoints. */
  lemma ReportDeterminedByKeys(es: seq<Edge>, fs: seq<Edge>)
    requires forall k :: Keyed(es, k) == Keyed(fs, k)
    ensures Reported(es) == Reported(fs)
  {
    ReportedIsKeyOrdered(es);
    ReportedIsKeyOrdered(fs);
    KeyOrderUnique(Reported(es), Reported(fs));
  }

  // ---------- relabelling keeps the keys ----------

  lemma RelabelSnoc(waits: set<Wait>, es: seq<Edge>, left: Option<nat>)
    requires es != []
    ensures var n := |es| - 1;
            Relabel(waits, es, left)
            == Relabel(waits, es[..n], left) + [WithDelay(es[n], Attributed(waits, es[n], left))]
  {
    RelabelAt(waits, es, left);
    RelabelAt(waits, es[..|es| - 1], left);
  }

  lemma {:induction false} RelabelKeyed(waits: set<Wait>, es: seq<Edge>, left: Option<nat>, k: Edge)
    ensures Keyed(Relabel(waits, es, left), k) == Relabel(waits, Keyed(es, k), left)
  {
    if es != [] {
      var n := |es| - 1;
      RelabelKeyed(waits, es[..n], left, k);
      RelabelSnoc(waits, es, left);
      var all := Relabel(waits, es, left);
      RelabelAt(waits, es[..n], left);
      assert all[..|all| - 1] == Relabel(waits, es[..n], left);
      assert all != [] && all[|all| - 1] == WithDelay(es[n], Attributed(waits, es[n], left));
      assert SameKey(all[|all| - 1], k) <==> SameKey(es[n], k);
      if SameKey(es[n], k) {
        var kept := Keyed(es, k);
        assert kept[..|kept| - 1] == Keyed(es[..n], k) && kept[|kept| - 1] == es[n];
        RelabelSnoc(waits, kept, left);
      } else {
        assert Keyed(es, k) == Keyed(es[..n], k);
        assert Keyed(all, k) == Keyed(all[..|all| - 1], k);
      }
    }
  }

  /** Edge lists with the same edges and the same order per key are reported
      identically after redistribution. */
  lemma CascadeReportDeterminedByKeys(es: seq<Edge>, fs: seq<Edge>, left: Option<nat>)
    requires forall k :: Keyed(es, k) == Keyed(fs, k)
    ensures Reported(Redistribute(es, left)) == Reported(Redistribute(fs, left))
  {
    forall e ensures e in es <==> e in fs {
      KeyedElements(es, e);
      KeyedElements(fs, e);
      assert Keyed(es, e) == Keyed(fs, e);
    }
    var waits := NormalWaits(es);
    assert NormalWaits(fs) == waits;
    RelabelAt(waits, es, left);
    RelabelAt(waits, fs, left);
    assert Redistribute(es, left) == Relabel(waits, es, left);
    assert Redistribute(fs, left) == Relabel(waits, fs, left);
    forall k ensures Keyed(Relabel(waits, es, left), k) == Keyed(Relabel(waits, fs, left), k) {
      RelabelKeyed(waits, es, left, k);
      RelabelKeyed(waits, fs, left, k);
      assert Keyed(es, k) == Keyed(fs, k);
    }
    ReportDeterminedByKeys(Relabel(waits, es, left), Relabel(waits, fs, left));
  }

  // ---------- drained edges ----------

  ghost predicate DistinctSources(es: seq<Edge>) {
    forall i, j | 0 <= i < j < |es| :: es[i].src != es[j].src
  }

  lemma {:induction false} KeyedAppend(es: seq<Edge>, d: seq<Edge>, k: Edge)
    ensures Keyed(es + d, k) == Keyed(es, k) + Keyed(d, k)
  {
    if d == [] {
      assert es + d == es;
    } else {
      var n := |d| - 1;
      KeyedAppend(es, d[..n], k);
      assert (es + d)[..|es + d| - 1] == es + d[..n];
    }
  }

  lemma {:induction false} KeyedSingle(d: seq<Edge>, k: Edge)
    requires DistinctSources(d)
    ensures |Keyed(d, k)| <= 1
  {
    if d != [] {
      var n := |d| - 1;
      KeyedSingle(d[..n], k);
      KeyedElements(d[..n], k);
      var earlier := Keyed(d[..n], k);
      assert earlier != [] ==> earlier[0] in earlier;
      assert forall e | e in d[..n] :: e.src != d[n].src;
    }
  }

  lemma KeyedOfSameDrain(c: seq<Edge>, d: seq<Edge>, k: Edge)
    requires DistinctSources(c) && DistinctSources(d)
    requires forall e :: e in c <==> e in d
    ensures Keyed(c, k) == Keyed(d, k)
  {
    KeyedSingle(c, k);
    KeyedSingle(d, k);
    KeyedElements(c, k);
    KeyedElements(d, k);
    assert Keyed(c, k) != [] ==> Keyed(c, k)[0] in Keyed(c, k) && Keyed(c, k)[0] in Keyed(d, k);
    assert Keyed(d, k) != [] ==> Keyed(d, k)[0] in Keyed(d, k) && Keyed(d, k)[0] in Keyed(c, k);
  }

  ghost function DrainedEdges(m: Machine, order: seq<u32>): seq<Edge>
    requires forall t | t in order :: t in m.pending
  {
    seq(|order|, i requires 0 <= i < |order| => SchedulerEdge(m.pending[order[i]]))
  }

  lemma {:induction false} DrainAppends(m: Machine, order: seq<u32>)
    requires Distinct(order) && forall t | t in order :: t in m.pending
    ensures Drain(m, order).edges == m.edges + DrainedEdges(m, order)
    ensures forall t | t in m.pending && t !in order ::
              t in Drain(m, order).pending && Drain(m, order).pending[t] == m.pending[t]
  {
    if order != [] {
      var init, t := order[..|order| - 1], order[|order| - 1];
      assert order == init + [t];
      DrainAppends(m, init);
      assert DrainedEdges(m, order) == DrainedEdges(m, init) + [SchedulerEdge(m.pending[t])];
    }
  }

  lemma SameDrain(m: Machine, a: seq<u32>, b: seq<u32>)
    requires Deferred(m) && Enumerates(a, m.pending.Keys) && Enumerates(b, m.pending.Keys)
    ensures DistinctSources(DrainedEdges(m, a))
    ensures forall e | e in DrainedEdges(m, a) :: e in DrainedEdges(m, b)
  {
    var da, db := DrainedEdges(m, a), DrainedEdges(m, b);
    forall i, j | 0 <= i < j < |da| ensures da[i].src != da[j].src {
      var s, t := a[i], a[j];
      assert s in a && t in a && s != t;
      assert m.pending[s].src == ThreadId(s) && m.pending[t].src == ThreadId(t);
    }
    forall e | e in da ensures e in db {
      var i :| 0 <= i < |da| && da[i] == e;
      var t := a[i];
      assert t in a && t in b;
      var j :| 0 <= j < |b| && b[j] == t;
      assert db[j] == e;
    }
  }

  /** Whatever order the leftover table is drained in, every consumer of the
      cascaded graph reads the same edges with the same delays in the same order. */
  lemma DrainOrderIsInvisible(h: seq<WperfEvent>, thresholdNs: nat, a: seq<u32>, b: seq<u32>, left: Option<nat>)
    requires Enumerates(a, Run(h, thresholdNs).pending.Keys)
    requires Enumerates(b, Run(h, thresholdNs).pending.Keys)
    ensures Reported(Redistribute(Correlate(h, thresholdNs, a).edges, left))
         == Reported(Redistribute(Correlate(h, thresholdNs, b).edges, left))
  {
    var m := Run(h, thresholdNs);
    RunKeepsDeferred(h, thresholdNs);
    DrainAppends(m, a);
    DrainAppends(m, b);
    SameDrain(m, a, b);
    SameDrain(m, b, a);
    var es, fs := m.edges + DrainedEdges(m, a), m.edges + DrainedEdges(m, b);
    forall k ensures Keyed(es, k) == Keyed(fs, k) {
      KeyedAppend(m.edges, DrainedEdges(m, a), k);
      KeyedAppend(m.edges, DrainedEdges(m, b), k);
      KeyedOfSameDrain(DrainedEdges(m, a), DrainedEdges(m, b), k);
    }
    CascadeReportDeterminedByKeys(es, fs, left);
  }
}
