/** The condensation DAG of a wait-for graph (src/scc/tarjan.rs). The strongly
    connected components are an input: they come from a library. */
module Condensation {
  import opened Collections
  import opened GraphTypes
  import opened EdgeOrder
  import opened WaitGraph
  import opened Reachability

  datatype SuperNode = SuperNode(sccIndex: nat, members: seq<ThreadId>, weight: nat)

  datatype DagEdge = DagEdge(source: nat, target: nat, weight: nat)

  /** The components of `es`: nonempty ascending lists that cover `threads`,
      two threads sharing one exactly when each reaches the other. */
  ghost predicate IsSccList(es: seq<Edge>, threads: set<ThreadId>, sccs: seq<seq<ThreadId>>) {
    && (forall c | 0 <= c < |sccs| :: sccs[c] != [] && Ascending(sccs[c]))
    && (forall c, t | 0 <= c < |sccs| && t in sccs[c] :: t in threads)
    && (forall t | t in threads :: exists c :: 0 <= c < |sccs| && t in sccs[c])
    && (forall c, d, s, t | 0 <= c < |sccs| && 0 <= d < |sccs| && s in sccs[c] && t in sccs[d] ::
          c == d <==> Mutual(es, s, t))
  }

  /** An edge from component `c` to component `d`. */
  ghost predicate Crosses(es: seq<Edge>, sccs: seq<seq<ThreadId>>, e: Edge, c: nat, d: nat) {
    c < |sccs| && d < |sccs| && e in es && e.src in sccs[c] && e.dst in sccs[d]
  }

  /** The DAG has one edge exactly between the distinct components that some
      edge connects, weighted by the largest attributed delay among those. */
  ghost predicate Condenses(es: seq<Edge>, sccs: seq<seq<ThreadId>>, dag: seq<DagEdge>) {
    && (forall x | x in dag ::
          && x.source < |sccs| && x.target < |sccs| && x.source != x.target
          && (exists e :: Crosses(es, sccs, e, x.source, x.target) && e.weight.attributedDelayMs == x.weight)
          && (forall e | Crosses(es, sccs, e, x.source, x.target) :: e.weight.attributedDelayMs <= x.weight))
    && (forall c: nat, d: nat, e | Crosses(es, sccs, e, c, d) && c != d :: Linked(dag, c, d))
    && (forall i, j | 0 <= i < j < |dag| :: dag[i].source != dag[j].source || dag[i].target != dag[j].target)
  }

  ghost predicate Linked(dag: seq<DagEdge>, c: nat, d: nat) {
    exists x :: x in dag && x.source == c && x.target == d
  }

  class CondensationDag {
    var nodes: seq<SuperNode>
    var edges: seq<DagEdge>
    var nodeMap: map<ThreadId, nat>

    constructor ()
      ensures nodes == [] && edges == [] && nodeMap == map[]
    {
      nodes, edges, nodeMap := [], [], map[];
    }

    method AddSuperNode(node: SuperNode)
      modifies this
      ensures nodes == old(nodes) + [node] && edges == old(edges)
      ensures forall t :: t in nodeMap <==> t in old(nodeMap) || t in node.members
      ensures forall t | t in nodeMap ::
                nodeMap[t] == if t in node.members then |old(nodes)| else old(nodeMap)[t]
    {
      var index := |nodes|;
      nodes := nodes + [node];
      for k := 0 to |node.members|
        invariant nodes == old(nodes) + [node] && edges == old(edges)
        invariant forall t :: t in nodeMap <==> t in old(nodeMap) || t in node.members[..k]
        invariant forall t | t in nodeMap ::
                    nodeMap[t] == if t in node.members[..k] then index else old(nodeMap)[t]
      {
        assert node.members[..k + 1] == node.members[..k] + [node.members[k]];
        nodeMap := nodeMap[node.members[k] := index];
      }
      assert node.members[..|node.members|] == node.members;
    }

    method AddEdge(source: nat, target: nat, weight: nat)
      modifies this`edges
      ensures edges == old(edges) + [DagEdge(source, target, weight)]
    {
      edges := edges + [DagEdge(source, target, weight)];
    }

    function OutDegree(index: nat): nat
      reads this
    {
      CountOut(edges, index)
    }

    /** Super-nodes without an outgoing edge. */
    function Sinks(): (r: seq<nat>)
      reads this
      ensures forall i | 0 <= i < |r| :: r[i] < |nodes|
      ensures forall c: nat :: c in r <==> c < |nodes| && OutDegree(c) == 0
      ensures forall i, j | 0 <= i < j < |r| :: r[i] < r[j]
    {
      SinksBelow(|nodes|)
    }

    function SinksBelow(n: nat): (r: seq<nat>)
      requires n <= |nodes|
      reads this
      ensures forall i | 0 <= i < |r| :: r[i] < n
      ensures forall c: nat :: c in r <==> c < n && OutDegree(c) == 0
      ensures forall i, j | 0 <= i < j < |r| :: r[i] < r[j]
    {
      if n == 0 then []
      else
        var rest := SinksBelow(n - 1);
        if OutDegree(n - 1) == 0 then rest + [n - 1] else rest
    }
  }

  function CountOut(edges: seq<DagEdge>, index: nat): nat {
    if edges == [] then 0
    else CountOut(edges[1..], index) + if edges[0].source == index then 1 else 0
  }

  lemma {:induction false} CountOutZero(edges: seq<DagEdge>, c: nat)
    ensures CountOut(edges, c) == 0 <==> forall d: nat :: !Linked(edges, c, d)
  {
    if edges != [] {
      CountOutZero(edges[1..], c);
      assert edges == [edges[0]] + edges[1..];
      if edges[0].source == c {
        assert edges[0] in edges;
        assert Linked(edges, c, edges[0].target);
      } else {
        forall d: nat ensures Linked(edges, c, d) <==> Linked(edges[1..], c, d) {
        }
      }
    }
  }

  // ---------- building ----------

  /** The component that `node_map` assigns to a thread. */
  ghost predicate MapsComponents(nodeMap: map<ThreadId, nat>, sccs: seq<seq<ThreadId>>, n: nat) {
    && n <= |sccs|
    && (forall t | t in nodeMap :: nodeMap[t] < n && t in sccs[nodeMap[t]])
    && (forall c, t | 0 <= c < n && t in sccs[c] :: t in nodeMap && nodeMap[t] == c)
  }

  lemma ComponentsDisjoint(es: seq<Edge>, threads: set<ThreadId>, sccs: seq<seq<ThreadId>>)
    requires IsSccList(es, threads, sccs)
    ensures Disjoint(sccs)
  {
    forall c, d, t | 0 <= c < |sccs| && 0 <= d < |sccs| && t in sccs[c] && t in sccs[d]
      ensures c == d
    {
      ReachSelf(es, t);
      assert Mutual(es, t, t);
    }
  }

  /** What the weight table holds after the edges of `rows`. */
  ghost predicate Tabulates(table: map<(nat, nat), nat>, rows: seq<Row>, nodeMap: map<ThreadId, nat>) {
    && (forall r | r in rows :: r.edge.src in nodeMap && r.edge.dst in nodeMap)
    && (forall k | k in table :: k.0 != k.1 && Attained(table, rows, nodeMap, k))
    && (forall r, k | Feeds(rows, nodeMap, r, k) && k.0 != k.1 ::
          k in table && r.edge.weight.attributedDelayMs <= table[k])
  }

  ghost predicate Feeds(rows: seq<Row>, nodeMap: map<ThreadId, nat>, r: Row, k: (nat, nat)) {
    && r in rows && r.edge.src in nodeMap && r.edge.dst in nodeMap
    && nodeMap[r.edge.src] == k.0 && nodeMap[r.edge.dst] == k.1
  }

  ghost predicate Attained(table: map<(nat, nat), nat>, rows: seq<Row>, nodeMap: map<ThreadId, nat>, k: (nat, nat))
    requires k in table
  {
    exists r :: Feeds(rows, nodeMap, r, k) && r.edge.weight.attributedDelayMs == table[k]
  }

  /** Maximum attributed delay per pair of distinct components. */
  method TabulateWeights(rows: seq<Row>, nodeMap: map<ThreadId, nat>) returns (table: map<(nat, nat), nat>)
    requires forall r | r in rows :: r.edge.src in nodeMap && r.edge.dst in nodeMap
    ensures Tabulates(table, rows, nodeMap)
  {
    table := map[];
    for i := 0 to |rows|
      invariant Tabulates(table, rows[..i], nodeMap)
    {
      var r := rows[i];
      assert r in rows;
      assert rows[..i + 1] == rows[..i] + [r];
      var key := (nodeMap[r.edge.src], nodeMap[r.edge.dst]);
      var delay := r.edge.weight.attributedDelayMs;
      ghost var before := table;
      if key.0 != key.1 {
        var entry := if key in table then table[key] else 0;
        table := table[key := if entry < delay then delay else entry];
      }
      TabulateStep(before, table, rows[..i], r, nodeMap);
    }
    assert rows[..|rows|] == rows;
  }

  lemma TabulateStep(before: map<(nat, nat), nat>, after: map<(nat, nat), nat>,
                     rows: seq<Row>, r: Row, nodeMap: map<ThreadId, nat>)
    requires Tabulates(before, rows, nodeMap) && r.edge.src in nodeMap && r.edge.dst in nodeMap
    requires var key := (nodeMap[r.edge.src], nodeMap[r.edge.dst]);
             var delay := r.edge.weight.attributedDelayMs;
             after == if key.0 == key.1 then before
                      else before[key := if key in before && before[key] >= delay then before[key] else delay]
    ensures Tabulates(after, rows + [r], nodeMap)
  {
    var key := (nodeMap[r.edge.src], nodeMap[r.edge.dst]);
    var more := rows + [r];
    assert Feeds(more, nodeMap, r, key);
    forall q, k ensures Feeds(more, nodeMap, q, k) <==> Feeds(rows, nodeMap, q, k) || (q == r && k == key) {
    }
    forall k | k in after
      ensures k.0 != k.1 && Attained(after, more, nodeMap, k)
    {
      if k in before && after[k] == before[k] {
        var q :| Feeds(rows, nodeMap, q, k) && q.edge.weight.attributedDelayMs == before[k];
        assert Feeds(more, nodeMap, q, k);
      } else {
        assert k == key && after[k] == r.edge.weight.attributedDelayMs;
      }
    }
  }

  /** The table as edges: one per key, in whatever order the keys come. */
  ghost predicate EdgesOfTable(dag: seq<DagEdge>, table: map<(nat, nat), nat>) {
    && (forall x | x in dag :: (x.source, x.target) in table && table[(x.source, x.target)] == x.weight)
    && (forall k | k in table :: DagEdge(k.0, k.1, table[k]) in dag)
    && (forall i, j | 0 <= i < j < |dag| :: dag[i].source != dag[j].source || dag[i].target != dag[j].target)
  }

  lemma TableEdgeAdded(dag: seq<DagEdge>, table: map<(nat, nat), nat>, rest: set<(nat, nat)>, k: (nat, nat))
    requires EdgesOfTable(dag, table - rest) && k in rest && rest <= table.Keys
    ensures EdgesOfTable(dag + [DagEdge(k.0, k.1, table[k])], table - (rest - {k}))
  {
    assert table - (rest - {k}) == (table - rest)[k := table[k]];
  }

  method AddTableEdges(cdag: CondensationDag, table: map<(nat, nat), nat>)
    requires cdag.edges == []
    modifies cdag`edges
    ensures EdgesOfTable(cdag.edges, table)
  {
    var rest := table;
    while rest.Keys != {}
      invariant rest.Keys <= table.Keys
      invariant forall k | k in rest :: rest[k] == table[k]
      invariant EdgesOfTable(cdag.edges, table - rest.Keys)
      decreases |rest.Keys|
    {
      var k := AnyPair(rest);
      ghost var before := cdag.edges;
      cdag.AddEdge(k.0, k.1, rest[k]);
      TableEdgeAdded(before, table, rest.Keys, k);
      rest := rest - {k};
    }
    assert table - rest.Keys == table;
  }

  method AnyPair(m: map<(nat, nat), nat>) returns (k: (nat, nat))
    requires m.Keys != {}
    ensures k in m
  {
    assert exists x :: x in m.Keys by {
      var x := Pick(m.Keys);
    }
    k :| k in m.Keys;
  }

  lemma TableCondenses(es: seq<Edge>, sccs: seq<seq<ThreadId>>, rows: seq<Row>, nodeMap: map<ThreadId, nat>,
                       table: map<(nat, nat), nat>, dag: seq<DagEdge>)
    requires MapsComponents(nodeMap, sccs, |sccs|)
    requires forall e | e in es :: e.src in nodeMap && e.dst in nodeMap
    requires forall r | r in rows :: r.edge in es
    requires forall e | e in es :: exists r :: r in rows && r.edge == e
    requires Tabulates(table, rows, nodeMap) && EdgesOfTable(dag, table)
    ensures Condenses(es, sccs, dag)
  {
    forall c: nat, d: nat, e | Crosses(es, sccs, e, c, d)
      ensures nodeMap[e.src] == c && nodeMap[e.dst] == d
      ensures c != d ==> (c, d) in table && e.weight.attributedDelayMs <= table[(c, d)]
      ensures c != d ==> Linked(dag, c, d)
    {
      var r :| r in rows && r.edge == e;
      assert Feeds(rows, nodeMap, r, (c, d));
      if c != d {
        assert DagEdge(c, d, table[(c, d)]) in dag;
      }
    }
    forall x | x in dag
      ensures x.source < |sccs| && x.target < |sccs| && x.source != x.target
      ensures exists e :: Crosses(es, sccs, e, x.source, x.target) && e.weight.attributedDelayMs == x.weight
    {
      var k := (x.source, x.target);
      assert Attained(table, rows, nodeMap, k);
      var r :| Feeds(rows, nodeMap, r, k) && r.edge.weight.attributedDelayMs == table[k];
      assert Crosses(es, sccs, r.edge, x.source, x.target);
    }
  }

  ghost predicate Disjoint(sccs: seq<seq<ThreadId>>) {
    forall c, d, t | 0 <= c < |sccs| && 0 <= d < |sccs| && t in sccs[c] && t in sccs[d] :: c == d
  }

  method AddSuperNodes(sccs: seq<seq<ThreadId>>) returns (cdag: CondensationDag)
    requires Disjoint(sccs)
    ensures fresh(cdag) && cdag.edges == []
    ensures |cdag.nodes| == |sccs| && forall c | 0 <= c < |sccs| :: cdag.nodes[c] == SuperNode(c, sccs[c], 0)
    ensures MapsComponents(cdag.nodeMap, sccs, |sccs|)
  {
    cdag := new CondensationDag();
    for c := 0 to |sccs|
      invariant fresh(cdag) && cdag.edges == []
      invariant |cdag.nodes| == c && forall d | 0 <= d < c :: cdag.nodes[d] == SuperNode(d, sccs[d], 0)
      invariant MapsComponents(cdag.nodeMap, sccs, c)
    {
      cdag.AddSuperNode(SuperNode(c, sccs[c], 0));
    }
  }

  /** Super-nodes for the components, then one edge per connected pair. */
  method BuildCondensation(graph: WaitForGraph, sccs: seq<seq<ThreadId>>) returns (cdag: CondensationDag)
    requires graph.Valid() && IsSccList(graph.Edges(), graph.Kinds().Keys, sccs)
    ensures fresh(cdag)
    ensures |cdag.nodes| == |sccs| && forall c | 0 <= c < |sccs| :: cdag.nodes[c] == SuperNode(c, sccs[c], 0)
    ensures MapsComponents(cdag.nodeMap, sccs, |sccs|)
    ensures Condenses(graph.Edges(), sccs, cdag.edges)
  {
    ghost var es := graph.Edges();
    ComponentsDisjoint(es, graph.Kinds().Keys, sccs);
    cdag := AddSuperNodes(sccs);
    var rows := graph.AllEdges();
    RowsCover(graph, rows, cdag.nodeMap, sccs);
    var table := TabulateWeights(rows, cdag.nodeMap);
    AddTableEdges(cdag, table);
    TableCondenses(es, sccs, rows, cdag.nodeMap, table, cdag.edges);
  }

  lemma RowsAreEdges(es: seq<Edge>, rows: seq<Row>)
    requires rows == StableSort(Rows(es))
    ensures forall r | r in rows :: r.edge in es
    ensures forall e | e in es :: exists r :: r in rows && r.edge == e
  {
    SortedRowsAreTheEdges(es);
    forall e | e in es ensures exists r :: r in rows && r.edge == e {
      var i :| 0 <= i < |es| && es[i] == e;
      assert Row(i, e) in rows;
    }
  }

  lemma EndpointsMapped(graph: WaitForGraph, nodeMap: map<ThreadId, nat>, sccs: seq<seq<ThreadId>>)
    requires graph.Valid() && MapsComponents(nodeMap, sccs, |sccs|)
    requires forall t | t in graph.Kinds().Keys :: exists c :: 0 <= c < |sccs| && t in sccs[c]
    ensures forall e | e in graph.Edges() :: e.src in nodeMap && e.dst in nodeMap
  {
    forall e | e in graph.Edges() ensures e.src in nodeMap && e.dst in nodeMap {
      assert e.src in graph.Kinds().Keys && e.dst in graph.Kinds().Keys;
    }
  }

  lemma RowsCover(graph: WaitForGraph, rows: seq<Row>, nodeMap: map<ThreadId, nat>, sccs: seq<seq<ThreadId>>)
    requires graph.Valid() && rows == graph.AllEdges()
    requires IsSccList(graph.Edges(), graph.Kinds().Keys, sccs) && MapsComponents(nodeMap, sccs, |sccs|)
    ensures forall r | r in rows :: r.edge in graph.Edges()
    ensures forall e | e in graph.Edges() :: exists r :: r in rows && r.edge == e
    ensures forall e | e in graph.Edges() :: e.src in nodeMap && e.dst in nodeMap
  {
    RowsAreEdges(graph.Edges(), rows);
    EndpointsMapped(graph, nodeMap, sccs);
  }

  // ---------- the quotient is acyclic ----------

  ghost predicate IsDagWalk(dag: seq<DagEdge>, p: seq<nat>) {
    p != [] && forall i | 0 <= i < |p| - 1 :: Linked(dag, p[i], p[i + 1])
  }

  ghost predicate DagWalkFrom(dag: seq<DagEdge>, p: seq<nat>, c: nat, d: nat) {
    IsDagWalk(dag, p) && p[0] == c && p[|p| - 1] == d
  }

  lemma DagWalkTail(dag: seq<DagEdge>, p: seq<nat>)
    requires IsDagWalk(dag, p) && |p| >= 2
    ensures IsDagWalk(dag, p[1..])
  {
    forall i | 0 <= i < |p[1..]| - 1 ensures Linked(dag, p[1..][i], p[1..][i + 1]) {
      assert Linked(dag, p[i + 1], p[i + 1 + 1]);
    }
  }

  lemma LinkLifts(es: seq<Edge>, threads: set<ThreadId>, sccs: seq<seq<ThreadId>>, dag: seq<DagEdge>, c: nat, d: nat)
    requires IsSccList(es, threads, sccs) && Condenses(es, sccs, dag) && Linked(dag, c, d)
    ensures c < |sccs| && d < |sccs| && c != d
    ensures forall s, t | s in sccs[c] && t in sccs[d] :: Reach(es, s, t)
  {
    var x :| x in dag && x.source == c && x.target == d;
    var e :| Crosses(es, sccs, e, c, d) && e.weight.attributedDelayMs == x.weight;
    ReachEdge(es, e);
    forall s, t | s in sccs[c] && t in sccs[d] ensures Reach(es, s, t) {
      assert Mutual(es, s, e.src) && Mutual(es, e.dst, t);
      ReachTransitive(es, s, e.src, e.dst);
      ReachTransitive(es, s, e.dst, t);
    }
  }

  /** A walk between super-nodes is a walk between all their members. */
  lemma {:induction false} DagWalkLifts(es: seq<Edge>, threads: set<ThreadId>, sccs: seq<seq<ThreadId>>,
                                        dag: seq<DagEdge>, p: seq<nat>)
    requires IsSccList(es, threads, sccs) && Condenses(es, sccs, dag)
    requires IsDagWalk(dag, p) && p[0] < |sccs|
    ensures p[|p| - 1] < |sccs|
    ensures forall s, t | s in sccs[p[0]] && t in sccs[p[|p| - 1]] :: Reach(es, s, t)
    decreases |p|
  {
    if |p| == 1 {
      forall s, t | s in sccs[p[0]] && t in sccs[p[0]] ensures Reach(es, s, t) {
        assert Mutual(es, s, t);
      }
    } else {
      assert Linked(dag, p[0], p[0 + 1]);
      LinkLifts(es, threads, sccs, dag, p[0], p[1]);
      DagWalkTail(dag, p);
      DagWalkLifts(es, threads, sccs, dag, p[1..]);
      forall s, t | s in sccs[p[0]] && t in sccs[p[|p| - 1]] ensures Reach(es, s, t) {
        var via := sccs[p[1]][0];
        assert via in sccs[p[1]];
        ReachTransitive(es, s, via, t);
      }
    }
  }

  /** No walk of the condensation returns to its start: the topological sort
      that follows cannot fail. */
  lemma CondensationIsAcyclic(es: seq<Edge>, threads: set<ThreadId>, sccs: seq<seq<ThreadId>>,
                              dag: seq<DagEdge>, p: seq<nat>)
    requires IsSccList(es, threads, sccs) && Condenses(es, sccs, dag)
    requires IsDagWalk(dag, p) && |p| >= 2
    ensures p[0] != p[|p| - 1]
  {
    assert Linked(dag, p[0], p[0 + 1]);
    LinkLifts(es, threads, sccs, dag, p[0], p[1]);
    DagWalkTail(dag, p);
    DagWalkLifts(es, threads, sccs, dag, p[1..]);
    var s, t := sccs[p[0]][0], sccs[p[1]][0];
    assert s in sccs[p[0]] && t in sccs[p[1]];
    assert Reach(es, s, t);
    assert p[0] == p[|p| - 1] ==> Mutual(es, s, t);
  }
}
