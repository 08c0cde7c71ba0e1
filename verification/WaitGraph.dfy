/** The Wait-For Graph (src/graph/wfg.rs): nodes and edges by index, with a map
    from thread to node index. */
module WaitGraph {
  import opened Collections
  import opened GraphTypes
  import opened EdgeOrder

  datatype NodeWeight = NodeWeight(tid: ThreadId, kind: NodeKind)

  datatype IndexedEdge = IndexedEdge(source: nat, target: nat, weight: EdgeWeight)

  predicate EndpointsExist(nodes: seq<NodeWeight>, edges: seq<IndexedEdge>) {
    forall k | 0 <= k < |edges| :: edges[k].source < |nodes| && edges[k].target < |nodes|
  }

  /** The edge list in edge-index order, endpoints named by thread. */
  function EdgeList(nodes: seq<NodeWeight>, edges: seq<IndexedEdge>): (es: seq<Edge>)
    requires EndpointsExist(nodes, edges)
  {
    seq(|edges|, k requires 0 <= k < |edges| =>
      Edge(nodes[edges[k].source].tid, nodes[edges[k].target].tid, edges[k].weight))
  }

  ghost function Restrict(kinds: map<ThreadId, NodeKind>, tids: seq<ThreadId>): map<ThreadId, NodeKind> {
    map t | t in kinds && t in tids :: kinds[t]
  }

  lemma RestrictSnoc(kinds: map<ThreadId, NodeKind>, tids: seq<ThreadId>, i: nat)
    requires i < |tids| && tids[i] in kinds
    ensures Restrict(kinds, tids[..i + 1]) == Restrict(kinds, tids[..i])[tids[i] := kinds[tids[i]]]
  {
    assert tids[..i + 1] == tids[..i] + [tids[i]];
  }

  class WaitForGraph {
    var nodes: seq<NodeWeight>
    var edges: seq<IndexedEdge>
    var nodeMap: map<ThreadId, nat>

    /** The map and the node list are inverse to each other, edges connect
        existing nodes, and every raw wait is its window's length. */
    ghost predicate Valid()
      reads this
    {
      && (forall t | t in nodeMap :: nodeMap[t] < |nodes| && nodes[nodeMap[t]].tid == t)
      && (forall i | 0 <= i < |nodes| :: nodes[i].tid in nodeMap && nodeMap[nodes[i].tid] == i)
      && EndpointsExist(nodes, edges)
      && (forall k | 0 <= k < |edges| :: edges[k].weight.rawWaitMs == Duration(edges[k].weight.window))
    }

    ghost function Edges(): seq<Edge>
      requires Valid()
      reads this
    {
      EdgeList(nodes, edges)
    }

    ghost function Kinds(): map<ThreadId, NodeKind>
      requires Valid()
      reads this
    {
      map t | t in nodeMap :: nodes[nodeMap[t]].kind
    }

    constructor ()
      ensures Valid() && Edges() == [] && Kinds() == map[]
    {
      nodes, edges, nodeMap := [], [], map[];
    }

    /** Idempotent: an existing thread keeps its index and its kind. */
    method AddNode(tid: ThreadId, kind: NodeKind) returns (index: nat)
      requires Valid()
      modifies this
      ensures Valid() && Edges() == old(Edges())
      ensures Kinds() == if tid in old(Kinds()) then old(Kinds()) else old(Kinds())[tid := kind]
      ensures tid in nodeMap && index == nodeMap[tid]
    {
      if tid in nodeMap {
        return nodeMap[tid];
      }
      index := |nodes|;
      nodes := nodes + [NodeWeight(tid, kind)];
      nodeMap := nodeMap[tid := index];
      assert Kinds() == old(Kinds())[tid := kind];
    }

    /** Append an edge between two known threads. */
    method PushEdge(src: ThreadId, dst: ThreadId, weight: EdgeWeight) returns (index: nat)
      requires Valid() && src in Kinds() && dst in Kinds()
      requires weight.rawWaitMs == Duration(weight.window)
      modifies this`edges
      ensures Valid() && Kinds() == old(Kinds())
      ensures Edges() == old(Edges()) + [Edge(src, dst, weight)] && index == |old(Edges())|
    {
      index := |edges|;
      edges := edges + [IndexedEdge(nodeMap[src], nodeMap[dst], weight)];
      assert Edges()[..index] == old(Edges());
    }

    method AddEdge(src: ThreadId, dst: ThreadId, w: TimeWindow) returns (index: nat)
      requires Valid() && src in Kinds() && dst in Kinds()
      modifies this`edges
      ensures Valid() && Kinds() == old(Kinds())
      ensures Edges() == old(Edges()) + [Edge(src, dst, NewWeight(w, None, Normal))]
    {
      index := PushEdge(src, dst, NewWeight(w, None, Normal));
    }

    method AddEdgeWithWaitType(src: ThreadId, dst: ThreadId, w: TimeWindow, waitType: WaitType)
      returns (index: nat)
      requires Valid() && src in Kinds() && dst in Kinds()
      modifies this`edges
      ensures Valid() && Kinds() == old(Kinds())
      ensures Edges() == old(Edges()) + [Edge(src, dst, NewWeight(w, Some(waitType), Normal))]
    {
      index := PushEdge(src, dst, NewWeight(w, Some(waitType), Normal));
    }

    method AddSyntheticClosureReturn(src: ThreadId, dst: ThreadId, w: TimeWindow, waitType: WaitType)
      returns (index: nat)
      requires Valid() && src in Kinds() && dst in Kinds()
      modifies this`edges
      ensures Valid() && Kinds() == old(Kinds())
      ensures Edges() == old(Edges()) + [Edge(src, dst, NewWeight(w, Some(waitType), SyntheticClosureReturn))]
    {
      index := PushEdge(src, dst, NewWeight(w, Some(waitType), SyntheticClosureReturn));
    }

    function NodeIndex(tid: ThreadId): Option<nat>
      reads this
    {
      if tid in nodeMap then Some(nodeMap[tid]) else None
    }

    function AllEdges(): seq<Row>
      requires Valid()
      reads this
    {
      StableSort(Rows(EdgeList(nodes, edges)))
    }

    /** Edges leaving node `index`, latest first, among the first `upTo`. */
    function OutgoingEdges(index: nat, upTo: nat): (rows: seq<Row>)
      requires Valid() && index < |nodes| && upTo <= |edges|
      reads this
      ensures forall r :: r in rows <==>
                r.index < upTo && r.edge == Edges()[r.index] && r.edge.src == nodes[index].tid
    {
      if upTo == 0 then []
      else
        var k := upTo - 1;
        var rest := OutgoingEdges(index, k);
        if edges[k].source == index then [Row(k, EdgeList(nodes, edges)[k])] + rest else rest
    }

    /** Edges entering node `index`, latest first, among the first `upTo`. */
    function IncomingEdges(index: nat, upTo: nat): (rows: seq<Row>)
      requires Valid() && index < |nodes| && upTo <= |edges|
      reads this
      ensures forall r :: r in rows <==>
                r.index < upTo && r.edge == Edges()[r.index] && r.edge.dst == nodes[index].tid
    {
      if upTo == 0 then []
      else
        var k := upTo - 1;
        var rest := IncomingEdges(index, k);
        if edges[k].target == index then [Row(k, EdgeList(nodes, edges)[k])] + rest else rest
    }

    /** The one use of `edge_weight_mut`: overwrite an attributed delay. */
    method SetAttributedDelay(index: nat, delayMs: nat)
      requires Valid() && index < |edges|
      modifies this`edges
      ensures Valid() && Kinds() == old(Kinds())
      ensures Edges() == old(Edges())[index := WithDelay(old(Edges())[index], delayMs)]
    {
      var e := edges[index];
      edges := edges[index := e.(weight := e.weight.(attributedDelayMs := delayMs))];
    }

    /** First half of a clone: into an empty graph, the nodes in thread order. */
    method AddNodes(kinds: map<ThreadId, NodeKind>)
      requires Valid() && Kinds() == map[] && Edges() == []
      modifies this
      ensures Valid() && Kinds() == kinds && Edges() == []
    {
      var tids := SortedThreads(kinds.Keys);
      SortedThreadsLists(kinds.Keys);
      for i := 0 to |tids|
        invariant Valid() && Edges() == []
        invariant Kinds() == Restrict(kinds, tids[..i])
      {
        assert tids[i] in kinds;
        RestrictSnoc(kinds, tids, i);
        var _ := AddNode(tids[i], kinds[tids[i]]);
      }
      assert tids[..|tids|] == tids;
      assert Restrict(kinds, tids) == kinds;
    }

    /** Rebuild the graph with nodes in thread order and attribution undone.
        Node indices may change; the edge list seen through threads does not. */
    method CloneWithResetAttribution() returns (clone: WaitForGraph)
      requires Valid()
      ensures fresh(clone) && clone.Valid() && clone.Kinds() == Kinds()
      ensures |clone.Edges()| == |Edges()|
      ensures forall k | 0 <= k < |Edges()| ::
                clone.Edges()[k] == WithDelay(Edges()[k], Edges()[k].weight.rawWaitMs)
    {
      var kinds := map t | t in nodeMap :: nodes[nodeMap[t]].kind;
      ghost var es := Edges();
      clone := new WaitForGraph();
      clone.AddNodes(kinds);
      for k := 0 to |edges|
        invariant fresh(clone) && clone.Valid() && clone.Kinds() == kinds
        invariant |clone.Edges()| == k
        invariant forall j | 0 <= j < k :: clone.Edges()[j] == WithDelay(es[j], es[j].weight.rawWaitMs)
      {
        var srcTid, dstTid := nodes[edges[k].source].tid, nodes[edges[k].target].tid;
        assert srcTid in kinds && dstTid in kinds;
        var weight := edges[k].weight;
        var _ := clone.PushEdge(srcTid, dstTid, weight.(attributedDelayMs := weight.rawWaitMs));
      }
    }
  }
}
