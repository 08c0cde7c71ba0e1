/** Steps 5 to 7 of a report on any wait-for graph (src/report.rs), with the two
    graph algorithms of the library as a parameter. */
module GraphAnalysis {
  import opened Collections
  import opened GraphTypes
  import opened WaitGraph
  import opened Condensation
  import opened Components
  import opened Heuristic
  import opened Knots
  import opened CriticalPath
  import opened TopoOrder
  import opened GraphReport

  // ---------- the two graph algorithms taken from a library ----------

  /** Strongly connected components of a graph, as sorted lists, and topological
      order of a DAG with that many nodes. */
  datatype GraphLibrary = GraphLibrary(
    components: (seq<NodeWeight>, seq<IndexedEdge>) -> seq<seq<ThreadId>>,
    order: (nat, seq<DagEdge>) -> seq<nat>)

  ghost function ThreadsOf(nodes: seq<NodeWeight>): set<ThreadId> {
    set n | n in nodes :: n.tid
  }

  ghost predicate FindsComponents(lib: GraphLibrary, nodes: seq<NodeWeight>, edges: seq<IndexedEdge>)
    requires EndpointsExist(nodes, edges)
  {
    IsSccList(EdgeList(nodes, edges), ThreadsOf(nodes), lib.components(nodes, edges))
  }

  ghost predicate Orders(lib: GraphLibrary, n: nat, dag: seq<DagEdge>) {
    (exists topo :: IsTopoOrder(topo, n, dag)) ==> IsTopoOrder(lib.order(n, dag), n, dag)
  }

  /** The library meets its specification. */
  ghost predicate Sound(lib: GraphLibrary) {
    && (forall nodes, edges | EndpointsExist(nodes, edges) :: FindsComponents(lib, nodes, edges))
    && (forall n, dag :: Orders(lib, n, dag))
  }

  ghost function SomeComponents(nodes: seq<NodeWeight>, edges: seq<IndexedEdge>): (sccs: seq<seq<ThreadId>>)
    ensures EndpointsExist(nodes, edges) ==> IsSccList(EdgeList(nodes, edges), ThreadsOf(nodes), sccs)
  {
    if EndpointsExist(nodes, edges) then
      ComponentListExists(EdgeList(nodes, edges), ThreadsOf(nodes));
      var sccs :| IsSccList(EdgeList(nodes, edges), ThreadsOf(nodes), sccs);
      sccs
    else []
  }

  ghost function SomeOrder(n: nat, dag: seq<DagEdge>): (topo: seq<nat>)
    ensures (exists t :: IsTopoOrder(t, n, dag)) ==> IsTopoOrder(topo, n, dag)
  {
    if exists t :: IsTopoOrder(t, n, dag) then
      var t :| IsTopoOrder(t, n, dag);
      t
    else []
  }

  /** The specification of the library can be met. */
  lemma SoundLibraryExists()
    ensures exists lib :: Sound(lib)
  {
    var lib := GraphLibrary((nodes, edges) => SomeComponents(nodes, edges), (n, dag) => SomeOrder(n, dag));
    assert Sound(lib);
  }

  lemma ThreadsAreKinds(graph: WaitForGraph)
    requires graph.Valid()
    ensures ThreadsOf(graph.nodes) == graph.Kinds().Keys
  {
    forall t ensures t in ThreadsOf(graph.nodes) <==> t in graph.Kinds().Keys {
      if t in graph.nodeMap {
        assert graph.nodes[graph.nodeMap[t]] in graph.nodes;
      }
    }
  }

  /** Steps 5 to 7 of a report: condensation with its weights, critical path and
      knots of a graph. */
  method AnalyseGraph(graph: WaitForGraph, lib: GraphLibrary) returns (knots: seq<Knot>, cp: Option<CriticalPath>)
    requires graph.Valid() && Sound(lib)
    ensures ShowsKnots(graph.Edges(), graph.Kinds(), knots)
    ensures cp.None? <==> graph.Kinds() == map[]
    ensures cp.Some? ==> ShowsCritical(graph.Edges(), graph.Kinds().Keys, cp.value)
  {
    var sccs := lib.components(graph.nodes, graph.edges);
    ThreadsAreKinds(graph);
    assert FindsComponents(lib, graph.nodes, graph.edges);
    var cdag := BuildCondensation(graph, sccs);
    forall c, t | 0 <= c < |cdag.nodes| && t in cdag.nodes[c].members ensures t in graph.nodeMap {
      assert t in sccs[c] && t in graph.Kinds().Keys;
    }
    ApplyMaxHeuristic(cdag, graph);
    assert Condensed(graph, cdag, sccs);
    CondensedMembers(graph, cdag, sccs);
    cp := OrderedCriticalPath(graph, cdag, sccs, lib);
    knots := DetectKnots(cdag, graph);
    KnotsAreShown(graph, cdag, sccs);
  }

  method OrderedCriticalPath(graph: WaitForGraph, cdag: CondensationDag, ghost sccs: seq<seq<ThreadId>>,
                             lib: GraphLibrary) returns (cp: Option<CriticalPath>)
    requires graph.Valid() && Condensed(graph, cdag, sccs) && Sound(lib)
    ensures cp.None? <==> graph.Kinds() == map[]
    ensures cp.Some? ==> ShowsCritical(graph.Edges(), graph.Kinds().Keys, cp.value)
  {
    ghost var threads := graph.Kinds().Keys;
    TopologicalOrderExists(graph.Edges(), threads, sccs, cdag.edges);
    assert Orders(lib, |cdag.nodes|, cdag.edges);
    var topo := lib.order(|cdag.nodes|, cdag.edges);
    cp := CriticalPathDp(cdag, topo);
    NoComponentsNoThreads(graph, sccs);
    if cp.Some? {
      CriticalIsShown(graph.Edges(), threads, sccs, cdag.nodes, cdag.edges, cp.value);
    }
  }

  lemma NoComponentsNoThreads(graph: WaitForGraph, sccs: seq<seq<ThreadId>>)
    requires graph.Valid() && IsSccList(graph.Edges(), graph.Kinds().Keys, sccs)
    ensures sccs == [] <==> graph.Kinds() == map[]
  {
    if sccs != [] {
      assert sccs[0][0] in sccs[0];
      assert sccs[0][0] in graph.Kinds().Keys;
    }
    if graph.Kinds() != map[] {
      var t := Pick(graph.Kinds().Keys);
      var c :| 0 <= c < |sccs| && t in sccs[c];
    }
  }
}
