/** Longest path through the condensation DAG (src/critical_path/mod.rs). The
    topological order is an input: it comes from a library. */
module CriticalPath {
  import opened Collections
  import opened GraphTypes
  import opened Condensation

  datatype CriticalPathNode = CriticalPathNode(members: seq<ThreadId>, weight: nat)

  datatype CriticalPath = CriticalPath(chain: seq<CriticalPathNode>, totalWeight: nat)

  /** `pos` inverts `topo`, a listing of all `n` nodes in which every edge points
      forward. */
  ghost predicate TopoPositions(topo: seq<nat>, pos: seq<nat>, n: nat, edges: seq<DagEdge>) {
    && |topo| == n && |pos| == n
    && (forall i | 0 <= i < n :: topo[i] < n && pos[topo[i]] == i)
    && (forall v | 0 <= v < n :: pos[v] < n && topo[pos[v]] == v)
    && (forall x | x in edges :: x.source < n && x.target < n && pos[x.source] < pos[x.target])
  }

  ghost predicate IsTopoOrder(topo: seq<nat>, n: nat, edges: seq<DagEdge>) {
    exists pos :: TopoPositions(topo, pos, n, edges)
  }

  // ---------- paths and their weight ----------

  /** A start node and the edges then followed. */
  datatype Walk = Walk(start: nat, steps: seq<DagEdge>)

  ghost function End(w: Walk): nat {
    if w.steps == [] then w.start else w.steps[|w.steps| - 1].target
  }

  ghost function Init(w: Walk): Walk
    requires w.steps != []
  {
    Walk(w.start, w.steps[..|w.steps| - 1])
  }

  ghost function Last(w: Walk): DagEdge
    requires w.steps != []
  {
    w.steps[|w.steps| - 1]
  }

  ghost predicate IsPath(n: nat, edges: seq<DagEdge>, w: Walk)
    decreases |w.steps|
  {
    if w.steps == [] then w.start < n
    else
      IsPath(n, edges, Init(w)) && Last(w) in edges
      && Last(w).source == End(Init(w)) && Last(w).target < n
  }

  /** Sum of the node and edge weights along a path. */
  ghost function Weight(nodes: seq<SuperNode>, w: Walk): nat
    decreases |w.steps|
  {
    if w.steps == [] then WeightOf(nodes, w.start)
    else Weight(nodes, Init(w)) + Last(w).weight + WeightOf(nodes, Last(w).target)
  }

  function WeightOf(nodes: seq<SuperNode>, v: nat): nat {
    if v < |nodes| then nodes[v].weight else 0
  }

  ghost function NodesOf(w: Walk): seq<nat>
    decreases |w.steps|
  {
    if w.steps == [] then [w.start] else NodesOf(Init(w)) + [Last(w).target]
  }

  ghost function Extend(w: Walk, x: DagEdge): Walk {
    Walk(w.start, w.steps + [x])
  }

  lemma ExtendPath(nodes: seq<SuperNode>, edges: seq<DagEdge>, w: Walk, x: DagEdge)
    requires IsPath(|nodes|, edges, w) && x in edges && x.source == End(w) && x.target < |nodes|
    ensures IsPath(|nodes|, edges, Extend(w, x)) && End(Extend(w, x)) == x.target
    ensures Init(Extend(w, x)) == w && Last(Extend(w, x)) == x
    ensures Weight(nodes, Extend(w, x)) == Weight(nodes, w) + x.weight + WeightOf(nodes, x.target)
  {
    assert Init(Extend(w, x)) == w;
  }

  // ---------- what the tables promise ----------

  /** Each entry is the weight of a real path to its node, and the predecessor
      is that path's last node but one. */
  ghost predicate Witnessed(nodes: seq<SuperNode>, edges: seq<DagEdge>,
                            dist: seq<nat>, pred: seq<Option<nat>>, best: seq<Walk>) {
    && |dist| == |nodes| && |pred| == |nodes| && |best| == |nodes|
    && forall v | 0 <= v < |nodes| :: WitnessedAt(nodes, edges, dist, pred, best, v)
  }

  ghost predicate WitnessedAt(nodes: seq<SuperNode>, edges: seq<DagEdge>,
                              dist: seq<nat>, pred: seq<Option<nat>>, best: seq<Walk>, v: nat)
    requires |dist| == |nodes| && |pred| == |nodes| && |best| == |nodes| && v < |nodes|
  {
    && IsPath(|nodes|, edges, best[v]) && End(best[v]) == v && Weight(nodes, best[v]) == dist[v]
    && (pred[v].None? <==> best[v].steps == [])
    && (pred[v].Some? ==> pred[v].value < |nodes| && Init(best[v]) == best[pred[v].value]
                          && Last(best[v]).target == v)
  }

  /** No node is below its own weight, and no edge in `relaxed` could improve
      its target. */
  ghost predicate Dominates(nodes: seq<SuperNode>, dist: seq<nat>, relaxed: set<DagEdge>)
    requires |dist| == |nodes|
  {
    && (forall v | 0 <= v < |nodes| :: dist[v] >= nodes[v].weight)
    && (forall x | x in relaxed && x.source < |nodes| && x.target < |nodes| ::
          dist[x.target] >= dist[x.source] + x.weight + nodes[x.target].weight)
  }

  /** Once no edge can improve anything, no path beats the table. */
  lemma {:induction false} TableIsOptimal(nodes: seq<SuperNode>, edges: seq<DagEdge>,
                                          dist: seq<nat>, relaxed: set<DagEdge>, w: Walk)
    requires |dist| == |nodes| && Dominates(nodes, dist, relaxed)
    requires forall x | x in edges :: x in relaxed
    requires IsPath(|nodes|, edges, w)
    ensures End(w) < |nodes| && Weight(nodes, w) <= dist[End(w)]
    decreases |w.steps|
  {
    if w.steps != [] {
      TableIsOptimal(nodes, edges, dist, relaxed, Init(w));
      assert Last(w) in relaxed;
    }
  }

  // ---------- one relaxation ----------

  /** Only nodes placed before `k` have been used as sources or predecessors. */
  ghost predicate SettledBefore(pos: seq<nat>, pred: seq<Option<nat>>, relaxed: set<DagEdge>, k: nat)
    requires |pred| == |pos|
  {
    && (forall v | 0 <= v < |pred| && pred[v].Some? :: pred[v].value < |pos| && pos[pred[v].value] < k)
    && (forall x | x in relaxed :: x.source < |pos| && pos[x.source] < k)
  }

  lemma StillWitnessed(nodes: seq<SuperNode>, edges: seq<DagEdge>, pos: seq<nat>,
                       dist: seq<nat>, pred: seq<Option<nat>>, best: seq<Walk>, relaxed: set<DagEdge>,
                       k: nat, x: DagEdge)
    requires Witnessed(nodes, edges, dist, pred, best) && |pos| == |nodes| && SettledBefore(pos, pred, relaxed, k)
    requires x in edges && x.source < |nodes| && x.target < |nodes| && pos[x.source] < k <= pos[x.target]
    ensures Witnessed(nodes, edges, dist[x.target := dist[x.source] + x.weight + nodes[x.target].weight],
                      pred[x.target := Some(x.source)], best[x.target := Extend(best[x.source], x)])
  {
    var dist' := dist[x.target := dist[x.source] + x.weight + nodes[x.target].weight];
    var pred' := pred[x.target := Some(x.source)];
    var best' := best[x.target := Extend(best[x.source], x)];
    assert WitnessedAt(nodes, edges, dist, pred, best, x.source);
    ExtendPath(nodes, edges, best[x.source], x);
    forall v | 0 <= v < |nodes| ensures WitnessedAt(nodes, edges, dist', pred', best', v) {
      assert WitnessedAt(nodes, edges, dist, pred, best, v);
    }
  }

  lemma RelaxImproves(nodes: seq<SuperNode>, edges: seq<DagEdge>, pos: seq<nat>,
                      dist: seq<nat>, pred: seq<Option<nat>>, best: seq<Walk>, relaxed: set<DagEdge>,
                      k: nat, x: DagEdge)
    requires Witnessed(nodes, edges, dist, pred, best) && Dominates(nodes, dist, relaxed)
    requires |pos| == |nodes| && SettledBefore(pos, pred, relaxed, k)
    requires x in edges && x.source < |nodes| && x.target < |nodes|
    requires pos[x.source] < k <= pos[x.target]
    requires dist[x.source] + x.weight + nodes[x.target].weight > dist[x.target]
    ensures var dist' := dist[x.target := dist[x.source] + x.weight + nodes[x.target].weight];
            var pred' := pred[x.target := Some(x.source)];
            var best' := best[x.target := Extend(best[x.source], x)];
            && Witnessed(nodes, edges, dist', pred', best')
            && Dominates(nodes, dist', relaxed + {x})
            && SettledBefore(pos, pred', relaxed + {x}, k)
  {
    var dist' := dist[x.target := dist[x.source] + x.weight + nodes[x.target].weight];
    var pred' := pred[x.target := Some(x.source)];
    var best' := best[x.target := Extend(best[x.source], x)];
    StillWitnessed(nodes, edges, pos, dist, pred, best, relaxed, k, x);
    assert Dominates(nodes, dist', relaxed + {x});
    assert SettledBefore(pos, pred', relaxed + {x}, k);
  }

  lemma RelaxKeeps(nodes: seq<SuperNode>, pos: seq<nat>, dist: seq<nat>, pred: seq<Option<nat>>,
                   relaxed: set<DagEdge>, k: nat, x: DagEdge)
    requires |dist| == |nodes| == |pos| == |pred| && Dominates(nodes, dist, relaxed)
    requires SettledBefore(pos, pred, relaxed, k)
    requires x.source < |nodes| && x.target < |nodes| && pos[x.source] < k
    requires dist[x.source] + x.weight + nodes[x.target].weight <= dist[x.target]
    ensures Dominates(nodes, dist, relaxed + {x}) && SettledBefore(pos, pred, relaxed + {x}, k)
  {}

  /** Edges leaving `v`. */
  function OutEdges(edges: seq<DagEdge>, v: nat): (r: seq<DagEdge>)
    ensures forall x :: x in r <==> x in edges && x.source == v
  {
    if edges == [] then []
    else
      assert edges == [edges[0]] + edges[1..];
      if edges[0].source == v then [edges[0]] + OutEdges(edges[1..], v) else OutEdges(edges[1..], v)
  }

  /** The inner loop: relax every edge leaving `topo[k]`. */
  method RelaxOutgoing(cdag: CondensationDag, topo: seq<nat>, k: nat, dist: array<nat>, pred: array<Option<nat>>,
                       ghost pos: seq<nat>, ghost best: seq<Walk>, ghost relaxed: set<DagEdge>)
    returns (ghost best': seq<Walk>, ghost relaxed': set<DagEdge>)
    requires TopoPositions(topo, pos, |cdag.nodes|, cdag.edges) && k < |topo|
    requires Witnessed(cdag.nodes, cdag.edges, dist[..], pred[..], best)
    requires Dominates(cdag.nodes, dist[..], relaxed) && SettledBefore(pos, pred[..], relaxed, k)
    modifies dist, pred
    ensures Witnessed(cdag.nodes, cdag.edges, dist[..], pred[..], best')
    ensures Dominates(cdag.nodes, dist[..], relaxed') && SettledBefore(pos, pred[..], relaxed', k + 1)
    ensures forall x :: x in relaxed' <==> x in relaxed || (x in cdag.edges && x.source == topo[k])
  {
    var v := topo[k];
    var vDist := dist[v];
    var outgoing := OutEdges(cdag.edges, v);
    best', relaxed' := best, relaxed;
    for i := 0 to |outgoing|
      invariant Witnessed(cdag.nodes, cdag.edges, dist[..], pred[..], best')
      invariant Dominates(cdag.nodes, dist[..], relaxed') && SettledBefore(pos, pred[..], relaxed', k + 1)
      invariant forall x :: x in relaxed' <==> x in relaxed || x in outgoing[..i]
      invariant dist[v] == vDist
    {
      var x := outgoing[i];
      assert x in outgoing;
      assert outgoing[..i + 1] == outgoing[..i] + [x];
      var u := x.target;
      var candidate := vDist + x.weight + cdag.nodes[u].weight;
      if candidate > dist[u] {
        RelaxImproves(cdag.nodes, cdag.edges, pos, dist[..], pred[..], best', relaxed', k + 1, x);
        dist[u] := candidate;
        pred[u] := Some(v);
        best' := best'[u := Extend(best'[v], x)];
      } else {
        RelaxKeeps(cdag.nodes, pos, dist[..], pred[..], relaxed', k + 1, x);
      }
      relaxed' := relaxed' + {x};
    }
    assert outgoing[..|outgoing|] == outgoing;
  }

  /** Fill the tables in topological order. */
  method FillTables(cdag: CondensationDag, topo: seq<nat>)
    returns (dist: array<nat>, pred: array<Option<nat>>, ghost best: seq<Walk>)
    requires IsTopoOrder(topo, |cdag.nodes|, cdag.edges)
    ensures fresh(dist) && fresh(pred)
    ensures Witnessed(cdag.nodes, cdag.edges, dist[..], pred[..], best)
    ensures Dominates(cdag.nodes, dist[..], set x | x in cdag.edges)
  {
    var n := |cdag.nodes|;
    ghost var pos :| TopoPositions(topo, pos, n, cdag.edges);
    dist := new nat[n](v => 0);
    pred := new Option<nat>[n](v => None);
    best := seq(n, v requires 0 <= v => Walk(v, []));
    InitWeights(cdag, topo, dist, pos);
    ghost var relaxed: set<DagEdge> := {};
    for k := 0 to n
      invariant Witnessed(cdag.nodes, cdag.edges, dist[..], pred[..], best)
      invariant Dominates(cdag.nodes, dist[..], relaxed) && SettledBefore(pos, pred[..], relaxed, k)
      invariant forall x | x in cdag.edges :: x in relaxed <==> pos[x.source] < k
    {
      best, relaxed := RelaxOutgoing(cdag, topo, k, dist, pred, pos, best, relaxed);
    }
  }

  /** Every node starts at its own weight. */
  method InitWeights(cdag: CondensationDag, topo: seq<nat>, dist: array<nat>, ghost pos: seq<nat>)
    requires dist.Length == |cdag.nodes| && TopoPositions(topo, pos, |cdag.nodes|, cdag.edges)
    modifies dist
    ensures forall v | 0 <= v < dist.Length :: dist[v] == cdag.nodes[v].weight
  {
    for k := 0 to |topo|
      invariant forall v | 0 <= v < dist.Length && pos[v] < k :: dist[v] == cdag.nodes[v].weight
    {
      dist[topo[k]] := cdag.nodes[topo[k]].weight;
    }
  }

  /** `max_by_key`: the last position of the maximum. */
  method LastMaximum(dist: array<nat>) returns (end: nat)
    requires dist.Length > 0
    ensures end < dist.Length
    ensures forall v | 0 <= v < dist.Length :: dist[v] <= dist[end]
    ensures forall v | end < v < dist.Length :: dist[v] < dist[end]
  {
    end := 0;
    for i := 1 to dist.Length
      invariant end < i
      invariant forall v | 0 <= v < i :: dist[v] <= dist[end]
      invariant forall v | end < v < i :: dist[v] < dist[end]
    {
      if dist[i] >= dist[end] {
        end := i;
      }
    }
  }

  function Reversed(s: seq<nat>): seq<nat> {
    if s == [] then [] else [s[|s| - 1]] + Reversed(s[..|s| - 1])
  }

  lemma StepBack(all: seq<nat>, front: seq<nat>, path: seq<nat>, current: nat, p: nat)
    requires path != [] && path[|path| - 1] == current
    requires all == front + [current] + Reversed(path[..|path| - 1])
    ensures all == front + Reversed((path + [p])[..|path|])
  {
    assert (path + [p])[..|path|] == path;
    Associative(front, [current], Reversed(path[..|path| - 1]));
  }

  /** Follow predecessors from `end`: the nodes of the recorded best path. */
  method TraceBack(nodes: seq<SuperNode>, edges: seq<DagEdge>, dist: array<nat>, pred: array<Option<nat>>,
                   ghost best: seq<Walk>, end: nat) returns (path: seq<nat>)
    requires Witnessed(nodes, edges, dist[..], pred[..], best) && end < |nodes|
    ensures path == NodesOf(best[end])
  {
    path := [end];
    var current := end;
    assert WitnessedAt(nodes, edges, dist[..], pred[..], best, end);
    while pred[current].Some?
      invariant current < |nodes| && path != [] && path[|path| - 1] == current
      invariant NodesOf(best[end]) == NodesOf(best[current]) + Reversed(path[..|path| - 1])
      decreases |best[current].steps|
    {
      assert WitnessedAt(nodes, edges, dist[..], pred[..], best, current);
      var p := pred[current].value;
      assert NodesOf(best[current]) == NodesOf(best[p]) + [current];
      StepBack(NodesOf(best[end]), NodesOf(best[p]), path, current, p);
      path := path + [p];
      current := p;
    }
    assert WitnessedAt(nodes, edges, dist[..], pred[..], best, current);
    path := Reversed(path);
  }

  function ChainOf(nodes: seq<SuperNode>, path: seq<nat>): seq<CriticalPathNode>
    requires forall i | 0 <= i < |path| :: path[i] < |nodes|
  {
    seq(|path|, i requires 0 <= i < |path| =>
      CriticalPathNode(nodes[path[i]].members, nodes[path[i]].weight))
  }

  lemma {:induction false} PathNodesInRange(n: nat, edges: seq<DagEdge>, w: Walk)
    requires IsPath(n, edges, w)
    ensures forall i | 0 <= i < |NodesOf(w)| :: NodesOf(w)[i] < n
    decreases |w.steps|
  {
    if w.steps != [] {
      PathNodesInRange(n, edges, Init(w));
    }
  }

  /** The result is the node list of a real path whose weight is the reported
      total, and no path weighs more. */
  ghost predicate IsCritical(nodes: seq<SuperNode>, edges: seq<DagEdge>, cp: CriticalPath) {
    && (exists w :: Realizes(nodes, edges, cp, w))
    && (forall q | IsPath(|nodes|, edges, q) :: Weight(nodes, q) <= cp.totalWeight)
  }

  ghost predicate Realizes(nodes: seq<SuperNode>, edges: seq<DagEdge>, cp: CriticalPath, w: Walk) {
    && IsPath(|nodes|, edges, w) && Weight(nodes, w) == cp.totalWeight
    && |cp.chain| == |NodesOf(w)|
    && forall i | 0 <= i < |cp.chain| ::
         NodesOf(w)[i] < |nodes|
         && cp.chain[i] == CriticalPathNode(nodes[NodesOf(w)[i]].members, nodes[NodesOf(w)[i]].weight)
  }

  method CriticalPathDp(cdag: CondensationDag, topo: seq<nat>) returns (r: Option<CriticalPath>)
    requires IsTopoOrder(topo, |cdag.nodes|, cdag.edges)
    ensures r.None? <==> cdag.nodes == []
    ensures r.Some? ==> IsCritical(cdag.nodes, cdag.edges, r.value)
  {
    if |cdag.nodes| == 0 {
      return None;
    }
    var nodes, edges := cdag.nodes, cdag.edges;
    var dist, pred;
    ghost var best;
    dist, pred, best := FillTables(cdag, topo);
    var end := LastMaximum(dist);
    var path := TraceBack(nodes, edges, dist, pred, best, end);
    assert WitnessedAt(nodes, edges, dist[..], pred[..], best, end);
    PathNodesInRange(|nodes|, edges, best[end]);
    var cp := CriticalPath(ChainOf(nodes, path), dist[end]);
    assert Realizes(nodes, edges, cp, best[end]);
    forall q | IsPath(|nodes|, edges, q) ensures Weight(nodes, q) <= cp.totalWeight {
      TableIsOptimal(nodes, edges, dist[..], (set x | x in edges), q);
    }
    return Some(cp);
  }

  // ---------- the total is bounded by the whole graph ----------

  /** Weight of the nodes, and of the edges by target, placed before `k`. */
  ghost function NodesPlaced(nodes: seq<SuperNode>, pos: seq<nat>, k: nat): nat
    requires |pos| >= |nodes|
  {
    if nodes == [] then 0
    else
      var n := |nodes| - 1;
      NodesPlaced(nodes[..n], pos, k) + if pos[n] < k then nodes[n].weight else 0
  }

  ghost function EdgesPlaced(edges: seq<DagEdge>, pos: seq<nat>, k: nat): nat {
    if edges == [] then 0
    else
      EdgesPlaced(edges[1..], pos, k)
      + if edges[0].target < |pos| && pos[edges[0].target] < k then edges[0].weight else 0
  }

  ghost function TotalNodes(nodes: seq<SuperNode>): nat {
    if nodes == [] then 0 else TotalNodes(nodes[..|nodes| - 1]) + nodes[|nodes| - 1].weight
  }

  ghost function TotalEdges(edges: seq<DagEdge>): nat {
    if edges == [] then 0 else TotalEdges(edges[1..]) + edges[0].weight
  }

  lemma {:induction false} NodesPlacedGrows(nodes: seq<SuperNode>, pos: seq<nat>, j: nat, k: nat, v: nat)
    requires |pos| >= |nodes| && j <= k
    ensures NodesPlaced(nodes, pos, j)
            + (if v < |nodes| && j <= pos[v] < k then nodes[v].weight else 0)
         <= NodesPlaced(nodes, pos, k) <= TotalNodes(nodes)
  {
    if nodes != [] {
      NodesPlacedGrows(nodes[..|nodes| - 1], pos, j, k, v);
    }
  }

  lemma {:induction false} EdgesPlacedGrows(edges: seq<DagEdge>, pos: seq<nat>, j: nat, k: nat, x: DagEdge)
    requires j <= k
    ensures EdgesPlaced(edges, pos, j)
            + (if x in edges && x.target < |pos| && j <= pos[x.target] < k then x.weight else 0)
         <= EdgesPlaced(edges, pos, k) <= TotalEdges(edges)
  {
    if edges != [] {
      EdgesPlacedGrows(edges[1..], pos, j, k, x);
      assert edges == [edges[0]] + edges[1..];
    }
  }

  /** A forward edge and its target are placed behind its source. */
  lemma StepWithinPrefix(nodes: seq<SuperNode>, edges: seq<DagEdge>, topo: seq<nat>, pos: seq<nat>, x: DagEdge)
    requires TopoPositions(topo, pos, |nodes|, edges) && x in edges
    ensures x.source < |nodes| && x.target < |nodes|
    ensures NodesPlaced(nodes, pos, pos[x.source] + 1) + EdgesPlaced(edges, pos, pos[x.source] + 1)
            + x.weight + nodes[x.target].weight
         <= NodesPlaced(nodes, pos, pos[x.target] + 1) + EdgesPlaced(edges, pos, pos[x.target] + 1)
  {
    NodesPlacedGrows(nodes, pos, pos[x.source] + 1, pos[x.target] + 1, x.target);
    EdgesPlacedGrows(edges, pos, pos[x.source] + 1, pos[x.target] + 1, x);
  }

  /** A path spends at most what is placed up to its end. */
  lemma {:induction false} PathWithinPrefix(nodes: seq<SuperNode>, edges: seq<DagEdge>,
                                            topo: seq<nat>, pos: seq<nat>, w: Walk)
    requires TopoPositions(topo, pos, |nodes|, edges) && IsPath(|nodes|, edges, w)
    ensures End(w) < |nodes|
    ensures Weight(nodes, w) <= NodesPlaced(nodes, pos, pos[End(w)] + 1) + EdgesPlaced(edges, pos, pos[End(w)] + 1)
    decreases |w.steps|
  {
    if w.steps == [] {
      NodesPlacedGrows(nodes, pos, 0, pos[w.start] + 1, w.start);
    } else {
      PathWithinPrefix(nodes, edges, topo, pos, Init(w));
      StepWithinPrefix(nodes, edges, topo, pos, Last(w));
    }
  }

  lemma PathIsBounded(nodes: seq<SuperNode>, edges: seq<DagEdge>, topo: seq<nat>, pos: seq<nat>, w: Walk)
    requires TopoPositions(topo, pos, |nodes|, edges) && IsPath(|nodes|, edges, w)
    ensures Weight(nodes, w) <= TotalNodes(nodes) + TotalEdges(edges)
  {
    PathWithinPrefix(nodes, edges, topo, pos, w);
    NodesPlacedGrows(nodes, pos, 0, pos[End(w)] + 1, 0);
    EdgesPlacedGrows(edges, pos, 0, pos[End(w)] + 1, DagEdge(0, 0, 0));
  }

  /** A critical path never weighs more than all nodes and all edges together. */
  lemma TotalIsBounded(nodes: seq<SuperNode>, edges: seq<DagEdge>, topo: seq<nat>, cp: CriticalPath)
    requires IsTopoOrder(topo, |nodes|, edges) && IsCritical(nodes, edges, cp)
    ensures cp.totalWeight <= TotalNodes(nodes) + TotalEdges(edges)
  {
    var pos :| TopoPositions(topo, pos, |nodes|, edges);
    var w :| Realizes(nodes, edges, cp, w);
    PathIsBounded(nodes, edges, topo, pos, w);
  }
}
