/** The critical path always has a topological order to work on: every
    condensation has one (src/critical_path/mod.rs, src/scc/tarjan.rs). */
module TopoOrder {
  import opened Collections
  import opened GraphTypes
  import opened Condensation
  import opened Knots
  import opened CriticalPath

  /** No later node leads back to an earlier one. */
  ghost predicate PointsForward(topo: seq<nat>, dag: seq<DagEdge>) {
    forall i, j | 0 <= i < j < |topo| :: topo[i] != topo[j] && !Linked(dag, topo[j], topo[i])
  }

  lemma {:induction false} MostReaching(dag: seq<DagEdge>, n: nat, s: set<nat>) returns (v: nat)
    requires s != {}
    ensures v in s && forall u | u in s :: |DagReach(dag, n, u)| <= |DagReach(dag, n, v)|
    decreases |s|
  {
    var y := Pick(s);
    var rest := s - {y};
    forall u | u in s ensures u == y || u in rest {}
    v := y;
    if rest != {} {
      var z := MostReaching(dag, n, rest);
      if |DagReach(dag, n, y)| < |DagReach(dag, n, z)| {
        v := z;
      }
    }
  }

  lemma SmallerSize<T>(a: set<T>, b: set<T>)
    requires a < b
    ensures |a| < |b|
  {
    SubsetSize(a, b);
    assert b == a + (b - a) && b - a != {};
  }

  /** Whatever reaches most has no predecessor left, so it can come first. */
  lemma {:induction false} Arrange(es: seq<Edge>, threads: set<ThreadId>, sccs: seq<seq<ThreadId>>,
                                   dag: seq<DagEdge>, s: set<nat>) returns (topo: seq<nat>)
    requires IsSccList(es, threads, sccs) && Condenses(es, sccs, dag)
    ensures (forall v: nat :: v in topo <==> v in s) && PointsForward(topo, dag)
    decreases |s|
  {
    topo := [];
    if s != {} {
      var v := MostReaching(dag, |sccs|, s);
      var rest := Arrange(es, threads, sccs, dag, s - {v});
      forall u: nat | u in s ensures !Linked(dag, u, v) {
        if Linked(dag, u, v) {
          DagReachShrinks(es, threads, sccs, dag, u, v);
          SmallerSize(DagReach(dag, |sccs|, v), DagReach(dag, |sccs|, u));
        }
      }
      topo := [v] + rest;
      assert forall i | 0 <= i < |rest| :: rest[i] in rest;
    }
  }

  ghost function Range(n: nat): (s: set<nat>)
    ensures |s| == n && forall v: nat :: v in s <==> v < n
  {
    if n == 0 then {} else Range(n - 1) + {n - 1}
  }

  ghost function PlaceOf(topo: seq<nat>, v: nat): (i: nat)
    requires v in topo
    ensures i < |topo| && topo[i] == v
  {
    var i :| 0 <= i < |topo| && topo[i] == v;
    i
  }

  ghost function Places(topo: seq<nat>, n: nat): (pos: seq<nat>)
    requires forall v: nat | v < n :: v in topo
    ensures |pos| == n && forall v | 0 <= v < n :: pos[v] == PlaceOf(topo, v)
  {
    seq(n, v requires 0 <= v < n => PlaceOf(topo, v))
  }

  lemma Placed(topo: seq<nat>, n: nat, dag: seq<DagEdge>)
    requires |topo| == n && (forall v: nat :: v in topo <==> v < n) && PointsForward(topo, dag)
    requires forall x | x in dag :: x.source < n && x.target < n && x.source != x.target
    ensures TopoPositions(topo, Places(topo, n), n, dag)
  {
    var pos := Places(topo, n);
    forall i | 0 <= i < n ensures topo[i] < n && pos[topo[i]] == i {
      assert topo[i] in topo;
    }
    forall x | x in dag ensures pos[x.source] < pos[x.target] {
      assert Linked(dag, x.source, x.target);
      assert x.source in topo && x.target in topo;
      assert topo[pos[x.source]] == x.source && topo[pos[x.target]] == x.target;
    }
  }

  /** A topological order exists for every condensation, so the sort cannot fail
      and the critical path is found. */
  lemma TopologicalOrderExists(es: seq<Edge>, threads: set<ThreadId>, sccs: seq<seq<ThreadId>>, dag: seq<DagEdge>)
    requires IsSccList(es, threads, sccs) && Condenses(es, sccs, dag)
    ensures exists topo :: IsTopoOrder(topo, |sccs|, dag)
  {
    var n := |sccs|;
    var topo := Arrange(es, threads, sccs, dag, Range(n));
    DistinctSize(topo, Range(n));
    Placed(topo, n, dag);
    assert IsTopoOrder(topo, n, dag);
  }
}
