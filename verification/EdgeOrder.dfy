/** The order in which a graph reports its edges: a stable sort by endpoints
    (src/graph/wfg.rs, `all_edges`). */
module EdgeOrder {
  import opened GraphTypes

  /** An edge together with its edge index. */
  datatype Row = Row(index: nat, edge: Edge)

  predicate KeyLe(a: Edge, b: Edge) {
    a.src.id < b.src.id || (a.src == b.src && a.dst.id <= b.dst.id)
  }

  predicate SameKey(a: Edge, b: Edge) {
    a.src == b.src && a.dst == b.dst
  }

  function Rows(es: seq<Edge>): seq<Row> {
    seq(|es|, i requires 0 <= i < |es| => Row(i, es[i]))
  }

  /** Insert after every row whose key is not greater. */
  function Insert(sorted: seq<Row>, r: Row): seq<Row> {
    if sorted == [] || KeyLe(sorted[|sorted| - 1].edge, r.edge) then sorted + [r]
    else Insert(sorted[..|sorted| - 1], r) + [sorted[|sorted| - 1]]
  }

  function StableSort(rows: seq<Row>): seq<Row> {
    if rows == [] then []
    else Insert(StableSort(rows[..|rows| - 1]), rows[|rows| - 1])
  }

  ghost predicate Sorted(rows: seq<Row>) {
    forall i, j | 0 <= i < j < |rows| :: KeyLe(rows[i].edge, rows[j].edge)
  }

  /** The rows carrying the same endpoints as `k`, in their order. */
  ghost function WithKey(rows: seq<Row>, k: Edge): seq<Row> {
    if rows == [] then []
    else
      var last := rows[|rows| - 1];
      WithKey(rows[..|rows| - 1], k) + (if SameKey(last.edge, k) then [last] else [])
  }

  lemma {:induction false} InsertSorted(sorted: seq<Row>, r: Row)
    requires Sorted(sorted)
    ensures Sorted(Insert(sorted, r))
    ensures multiset(Insert(sorted, r)) == multiset(sorted) + multiset{r}
  {
    if sorted != [] && !KeyLe(sorted[|sorted| - 1].edge, r.edge) {
      var init, last := sorted[..|sorted| - 1], sorted[|sorted| - 1];
      InsertSorted(init, r);
      var ins := Insert(init, r);
      assert sorted == init + [last];
      forall i | 0 <= i < |ins| ensures KeyLe(ins[i].edge, last.edge) {
        assert ins[i] in multiset(ins);
        assert ins[i] in init || ins[i] == r;
      }
    }
  }

  lemma {:induction false} WithKeyAppend(rows: seq<Row>, r: Row, k: Edge)
    ensures WithKey(rows + [r], k) == WithKey(rows, k) + (if SameKey(r.edge, k) then [r] else [])
  {
    assert (rows + [r])[..|rows|] == rows;
  }

  lemma {:induction false} InsertStable(sorted: seq<Row>, r: Row, k: Edge)
    requires Sorted(sorted)
    ensures WithKey(Insert(sorted, r), k) == WithKey(sorted + [r], k)
  {
    if sorted != [] && !KeyLe(sorted[|sorted| - 1].edge, r.edge) {
      var init, last := sorted[..|sorted| - 1], sorted[|sorted| - 1];
      InsertStable(init, r, k);
      WithKeyAppend(Insert(init, r), last, k);
      WithKeyAppend(init, r, k);
      WithKeyAppend(sorted, r, k);
      assert sorted == init + [last];
    }
  }

  /** The sort orders the rows by endpoints, loses and invents none, and keeps
      rows with equal endpoints in edge-index order. */
  lemma {:induction false} StableSortCorrect(rows: seq<Row>)
    ensures Sorted(StableSort(rows))
    ensures multiset(StableSort(rows)) == multiset(rows)
    ensures forall k :: WithKey(StableSort(rows), k) == WithKey(rows, k)
  {
    if rows != [] {
      var init, last := rows[..|rows| - 1], rows[|rows| - 1];
      StableSortCorrect(init);
      assert rows == init + [last];
      InsertSorted(StableSort(init), last);
      forall k ensures WithKey(StableSort(rows), k) == WithKey(rows, k) {
        InsertStable(StableSort(init), last, k);
        WithKeyAppend(StableSort(init), last, k);
        WithKeyAppend(init, last, k);
      }
    }
  }

  // ---------- the order, written out ----------

  /** By source thread, then by target thread, then by edge index. */
  predicate Before(a: Row, b: Row) {
    if a.edge.src.id != b.edge.src.id then a.edge.src.id < b.edge.src.id
    else if a.edge.dst.id != b.edge.dst.id then a.edge.dst.id < b.edge.dst.id
    else a.index < b.index
  }

  ghost predicate IndicesAscend(rows: seq<Row>) {
    forall i, j | 0 <= i < j < |rows| :: rows[i].index < rows[j].index
  }

  lemma {:induction false} WithKeyHolds(rows: seq<Row>, k: Edge, r: Row)
    ensures r in WithKey(rows, k) <==> r in rows && SameKey(r.edge, k)
  {
    if rows != [] {
      var n := |rows| - 1;
      WithKeyHolds(rows[..n], k, r);
      assert rows == rows[..n] + [rows[n]];
    }
  }

  lemma {:induction false} WithKeyAscends(rows: seq<Row>, k: Edge)
    requires IndicesAscend(rows)
    ensures IndicesAscend(WithKey(rows, k))
  {
    if rows != [] {
      var n := |rows| - 1;
      var init := WithKey(rows[..n], k);
      WithKeyAscends(rows[..n], k);
      forall i | 0 <= i < |init| ensures init[i].index < rows[n].index {
        WithKeyHolds(rows[..n], k, init[i]);
        var j :| 0 <= j < n && rows[j] == init[i];
      }
    }
  }

  lemma {:induction false} EqualKeysAscend(rows: seq<Row>, i: nat, j: nat)
    requires i < j < |rows| && SameKey(rows[i].edge, rows[j].edge) && IndicesAscend(WithKey(rows, rows[j].edge))
    ensures rows[i].index < rows[j].index
  {
    var n, k := |rows| - 1, rows[j].edge;
    var init := WithKey(rows[..n], k);
    assert WithKey(rows, k) == init + if SameKey(rows[n].edge, k) then [rows[n]] else [];
    if j < n {
      assert IndicesAscend(init) by {
        assert forall a | 0 <= a < |init| :: init[a] == WithKey(rows, k)[a];
      }
      EqualKeysAscend(rows[..n], i, j);
    } else {
      WithKeyHolds(rows[..n], k, rows[i]);
      assert rows[..n][i] == rows[i];
      var a :| 0 <= a < |init| && init[a] == rows[i];
      assert WithKey(rows, k)[a] == rows[i] && WithKey(rows, k)[|init|] == rows[n];
    }
  }

  /** The edges of a graph are reported by source, then target, then edge index. */
  lemma ReportedInOrder(es: seq<Edge>)
    ensures var rows := StableSort(Rows(es));
            forall i, j | 0 <= i < j < |rows| :: Before(rows[i], rows[j])
  {
    var rows := StableSort(Rows(es));
    StableSortCorrect(Rows(es));
    forall i, j | 0 <= i < j < |rows| ensures Before(rows[i], rows[j]) {
      assert KeyLe(rows[i].edge, rows[j].edge);
      if SameKey(rows[i].edge, rows[j].edge) {
        WithKeyAscends(Rows(es), rows[j].edge);
        EqualKeysAscend(rows, i, j);
      }
    }
  }

  /** `AllEdges` enumerates each edge index exactly once with its own edge. */
  lemma SortedRowsAreTheEdges(es: seq<Edge>)
    ensures var rows := StableSort(Rows(es));
            && |rows| == |es|
            && (forall r | r in rows :: r.index < |es| && r.edge == es[r.index])
            && (forall i | 0 <= i < |es| :: Row(i, es[i]) in rows)
  {
    var rows := StableSort(Rows(es));
    StableSortCorrect(Rows(es));
    assert |rows| == |multiset(rows)| == |multiset(Rows(es))|;
    forall r | r in rows ensures r.index < |es| && r.edge == es[r.index] {
      assert r in multiset(rows);
      assert r in Rows(es);
    }
    forall i | 0 <= i < |es| ensures Row(i, es[i]) in rows {
      assert Rows(es)[i] in multiset(Rows(es));
      assert Row(i, es[i]) in multiset(rows);
    }
  }

  // ---------- two edge lists that differ only in attributed delay ----------

  predicate SameButDelay(a: Edge, b: Edge) {
    a == b.(weight := b.weight.(attributedDelayMs := a.weight.attributedDelayMs))
  }

  ghost predicate Aligned(a: seq<Row>, b: seq<Row>) {
    && |a| == |b|
    && forall i | 0 <= i < |a| :: a[i].index == b[i].index && SameButDelay(a[i].edge, b[i].edge)
  }

  lemma {:induction false} InsertAligned(a: seq<Row>, b: seq<Row>, r: Row, s: Row)
    requires Aligned(a, b) && r.index == s.index && SameButDelay(r.edge, s.edge)
    ensures Aligned(Insert(a, r), Insert(b, s))
  {
    if a != [] && !KeyLe(a[|a| - 1].edge, r.edge) {
      InsertAligned(a[..|a| - 1], b[..|b| - 1], r, s);
    }
  }

  ghost predicate EndsAligned(a: seq<Row>, b: seq<Row>) {
    && |a| == |b|
    && forall i | 0 <= i < |a| :: a[i].index == b[i].index && SameKey(a[i].edge, b[i].edge)
  }

  lemma {:induction false} InsertEndsAligned(a: seq<Row>, b: seq<Row>, r: Row, s: Row)
    requires EndsAligned(a, b) && r.index == s.index && SameKey(r.edge, s.edge)
    ensures EndsAligned(Insert(a, r), Insert(b, s))
  {
    if a != [] && !KeyLe(a[|a| - 1].edge, r.edge) {
      InsertEndsAligned(a[..|a| - 1], b[..|b| - 1], r, s);
    }
  }

  /** Rows with the same endpoints are sorted into the same positions. */
  lemma {:induction false} SortEndsAligned(a: seq<Row>, b: seq<Row>)
    requires EndsAligned(a, b)
    ensures EndsAligned(StableSort(a), StableSort(b))
  {
    if a != [] {
      SortEndsAligned(a[..|a| - 1], b[..|b| - 1]);
      InsertEndsAligned(StableSort(a[..|a| - 1]), StableSort(b[..|b| - 1]), a[|a| - 1], b[|b| - 1]);
    }
  }

  /** The report order depends on endpoints only, so it survives relabelling. */
  lemma {:induction false} SortAligned(a: seq<Row>, b: seq<Row>)
    requires Aligned(a, b)
    ensures Aligned(StableSort(a), StableSort(b))
  {
    if a != [] {
      SortAligned(a[..|a| - 1], b[..|b| - 1]);
      InsertAligned(StableSort(a[..|a| - 1]), StableSort(b[..|b| - 1]), a[|a| - 1], b[|b| - 1]);
    }
  }
}
