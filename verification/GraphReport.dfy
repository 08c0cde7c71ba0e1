/** What the knots and the critical path of a report say about the wait-for
    graph, whatever numbers the components happened to get (src/report.rs). */
module GraphReport {
  import opened GraphTypes
  import opened WaitGraph
  import opened Reachability
  import opened Condensation
  import opened Components
  import opened Heuristic
  import opened Knots
  import opened CriticalPath

  // ---------- knots ----------

  ghost predicate IsKnot(es: seq<Edge>, kinds: map<ThreadId, NodeKind>, members: seq<ThreadId>) {
    && IsComponent(es, kinds.Keys, members) && Closed(es, members)
    && (exists t :: t in members && OnCycle(es, t))
    && (exists t :: t in members && t in kinds && kinds[t] != KernelThread)
  }

  ghost predicate Listed(knots: seq<Knot>, members: seq<ThreadId>) {
    exists k :: k in knots && k.members == members
  }

  /** Each knot of the graph once, and nothing else. */
  ghost predicate ShowsKnots(es: seq<Edge>, kinds: map<ThreadId, NodeKind>, knots: seq<Knot>) {
    && (forall members :: Listed(knots, members) <==> IsKnot(es, kinds, members))
    && (forall i, j | 0 <= i < j < |knots| :: knots[i].members != knots[j].members)
  }

  /** Super-nodes and edges that condense `es`, weighted. */
  ghost predicate Weighted(es: seq<Edge>, threads: set<ThreadId>, sccs: seq<seq<ThreadId>>,
                           nodes: seq<SuperNode>, dag: seq<DagEdge>) {
    && IsSccList(es, threads, sccs) && Condenses(es, sccs, dag) && |nodes| == |sccs|
    && forall c | 0 <= c < |sccs| :: nodes[c] == SuperNode(c, sccs[c], SuperWeight(es, sccs[c]))
  }

  /** The condensation of `graph` that the report works on. */
  ghost predicate Condensed(graph: WaitForGraph, cdag: CondensationDag, sccs: seq<seq<ThreadId>>)
    requires graph.Valid()
    reads graph, cdag
  {
    Weighted(graph.Edges(), graph.Kinds().Keys, sccs, cdag.nodes, cdag.edges)
  }

  lemma CondensedMembers(graph: WaitForGraph, cdag: CondensationDag, sccs: seq<seq<ThreadId>>)
    requires graph.Valid() && Condensed(graph, cdag, sccs)
    ensures MembersKnown(cdag, graph)
  {
    forall c, t | 0 <= c < |cdag.nodes| && t in cdag.nodes[c].members ensures t in graph.nodeMap {
      assert t in sccs[c];
      assert t in graph.Kinds().Keys;
    }
  }

  lemma KnotIsListed(graph: WaitForGraph, cdag: CondensationDag, sccs: seq<seq<ThreadId>>, members: seq<ThreadId>)
    requires graph.Valid() && Condensed(graph, cdag, sccs) && MembersKnown(cdag, graph)
    requires IsKnot(graph.Edges(), graph.Kinds(), members)
    ensures Listed(DetectKnots(cdag, graph), members)
  {
    var c := ComponentIsListed(graph.Edges(), graph.Kinds().Keys, sccs, members);
    KnotMeaning(graph, cdag, sccs, c);
    assert Knot(c, members) in DetectKnots(cdag, graph);
  }

  lemma ListedIsKnot(graph: WaitForGraph, cdag: CondensationDag, sccs: seq<seq<ThreadId>>, k: Knot)
    requires graph.Valid() && Condensed(graph, cdag, sccs) && MembersKnown(cdag, graph)
    requires k in DetectKnots(cdag, graph)
    ensures k.dagIndex < |sccs| && k.members == sccs[k.dagIndex]
    ensures IsKnot(graph.Edges(), graph.Kinds(), k.members)
  {
    var c := k.dagIndex;
    ListedIsComponent(graph.Edges(), graph.Kinds().Keys, sccs, c);
    assert k == Knot(c, sccs[c]);
    KnotMeaning(graph, cdag, sccs, c);
  }

  /** The detected knots are the knots of the graph. */
  lemma KnotsAreShown(graph: WaitForGraph, cdag: CondensationDag, sccs: seq<seq<ThreadId>>)
    requires graph.Valid() && Condensed(graph, cdag, sccs) && MembersKnown(cdag, graph)
    ensures ShowsKnots(graph.Edges(), graph.Kinds(), DetectKnots(cdag, graph))
  {
    var knots := DetectKnots(cdag, graph);
    forall members ensures Listed(knots, members) <==> IsKnot(graph.Edges(), graph.Kinds(), members) {
      if IsKnot(graph.Edges(), graph.Kinds(), members) {
        KnotIsListed(graph, cdag, sccs, members);
      }
      if Listed(knots, members) {
        var k :| k in knots && k.members == members;
        ListedIsKnot(graph, cdag, sccs, k);
      }
    }
    forall i, j | 0 <= i < j < |knots| ensures knots[i].members != knots[j].members {
      ListedIsKnot(graph, cdag, sccs, knots[i]);
      ListedIsKnot(graph, cdag, sccs, knots[j]);
      ListsEachOnce(graph.Edges(), graph.Kinds().Keys, sccs, knots[i].members);
    }
  }

  // ---------- critical path ----------

  /** Components, each joined to the next by some wait. */
  ghost predicate IsChain(es: seq<Edge>, threads: set<ThreadId>, comps: seq<seq<ThreadId>>) {
    && comps != []
    && (forall i | 0 <= i < |comps| :: IsComponent(es, threads, comps[i]))
    && (forall i | 0 <= i < |comps| - 1 ::
          comps[i] != comps[i + 1] && HasAny(es, Across(comps[i], comps[i + 1])))
  }

  /** Weights of the components and of the heaviest wait between neighbours. */
  ghost function ChainWeight(es: seq<Edge>, comps: seq<seq<ThreadId>>): nat {
    if comps == [] then 0
    else if |comps| == 1 then SuperWeight(es, comps[0])
    else
      var n := |comps| - 1;
      ChainWeight(es, comps[..n]) + Heaviest(es, Across(comps[n - 1], comps[n])) + SuperWeight(es, comps[n])
  }

  ghost function MembersOf(chain: seq<CriticalPathNode>): seq<seq<ThreadId>> {
    seq(|chain|, i requires 0 <= i < |chain| => chain[i].members)
  }

  /** A real chain of the reported weights, and no chain weighs more. */
  ghost predicate ShowsCritical(es: seq<Edge>, threads: set<ThreadId>, cp: CriticalPath) {
    && IsChain(es, threads, MembersOf(cp.chain)) && ChainWeight(es, MembersOf(cp.chain)) == cp.totalWeight
    && (forall i | 0 <= i < |cp.chain| :: Weighs(es, cp.chain[i].members, cp.chain[i].weight))
    && (forall comps | IsChain(es, threads, comps) :: ChainWeight(es, comps) <= cp.totalWeight)
  }

  lemma DagEdgeWeight(es: seq<Edge>, threads: set<ThreadId>, sccs: seq<seq<ThreadId>>,
                      nodes: seq<SuperNode>, dag: seq<DagEdge>, x: DagEdge)
    requires Weighted(es, threads, sccs, nodes, dag) && x in dag
    ensures x.source < |sccs| && x.target < |sccs| && sccs[x.source] != sccs[x.target]
    ensures HasAny(es, Across(sccs[x.source], sccs[x.target]))
    ensures x.weight == Heaviest(es, Across(sccs[x.source], sccs[x.target]))
  {
    var s := Across(sccs[x.source], sccs[x.target]);
    var e :| Crosses(es, sccs, e, x.source, x.target) && e.weight.attributedDelayMs == x.weight;
    assert e in es && s.Has(e);
    forall f | f in es && s.Has(f) ensures f.weight.attributedDelayMs <= x.weight {
      assert Crosses(es, sccs, f, x.source, x.target);
    }
    assert IsHeaviest(es, s, x.weight);
    HeaviestIsUnique(es, es, s, x.weight);
    ComponentsDisjoint(es, threads, sccs);
    assert e.src in sccs[x.source];
  }

  ghost function CompsOf(sccs: seq<seq<ThreadId>>, w: Walk): seq<seq<ThreadId>> {
    seq(|NodesOf(w)|, i requires 0 <= i < |NodesOf(w)| =>
      if NodesOf(w)[i] < |sccs| then sccs[NodesOf(w)[i]] else [])
  }

  lemma ChainGrows(es: seq<Edge>, threads: set<ThreadId>, comps: seq<seq<ThreadId>>, next: seq<ThreadId>)
    requires IsChain(es, threads, comps) && IsComponent(es, threads, next)
    requires comps[|comps| - 1] != next && HasAny(es, Across(comps[|comps| - 1], next))
    ensures IsChain(es, threads, comps + [next])
  {
    var more := comps + [next];
    forall i | 0 <= i < |more| - 1 ensures more[i] != more[i + 1] && HasAny(es, Across(more[i], more[i + 1])) {
      assert more[i] == comps[i];
      assert i + 1 < |comps| ==> more[i + 1] == comps[i + 1];
    }
  }

  lemma WeightGrows(es: seq<Edge>, comps: seq<seq<ThreadId>>, next: seq<ThreadId>)
    requires comps != []
    ensures ChainWeight(es, comps + [next])
         == ChainWeight(es, comps) + Heaviest(es, Across(comps[|comps| - 1], next)) + SuperWeight(es, next)
  {
    assert (comps + [next])[..|comps|] == comps;
  }

  lemma SingleChain(es: seq<Edge>, threads: set<ThreadId>, comp: seq<ThreadId>)
    requires IsComponent(es, threads, comp)
    ensures IsChain(es, threads, [comp]) && ChainWeight(es, [comp]) == SuperWeight(es, comp)
  {}

  lemma ChainTakesEdge(es: seq<Edge>, threads: set<ThreadId>, sccs: seq<seq<ThreadId>>,
                       nodes: seq<SuperNode>, dag: seq<DagEdge>, comps: seq<seq<ThreadId>>, x: DagEdge)
    requires Weighted(es, threads, sccs, nodes, dag) && x in dag && x.source < |sccs|
    requires IsChain(es, threads, comps) && comps[|comps| - 1] == sccs[x.source]
    ensures x.target < |sccs| && IsChain(es, threads, comps + [sccs[x.target]])
    ensures ChainWeight(es, comps + [sccs[x.target]]) == ChainWeight(es, comps) + x.weight + nodes[x.target].weight
  {
    DagEdgeWeight(es, threads, sccs, nodes, dag, x);
    ListedIsComponent(es, threads, sccs, x.target);
    ChainGrows(es, threads, comps, sccs[x.target]);
    WeightGrows(es, comps, sccs[x.target]);
  }

  lemma CompsGrow(sccs: seq<seq<ThreadId>>, w: Walk)
    requires w.steps != [] && Last(w).target < |sccs|
    ensures CompsOf(sccs, w) == CompsOf(sccs, Init(w)) + [sccs[Last(w).target]]
  {}

  lemma CompsOfStart(sccs: seq<seq<ThreadId>>, w: Walk)
    requires w.steps == [] && w.start < |sccs|
    ensures CompsOf(sccs, w) == [sccs[w.start]]
  {}

  /** `w` passes through `comps` and weighs as much. */
  ghost predicate Passes(es: seq<Edge>, sccs: seq<seq<ThreadId>>, nodes: seq<SuperNode>,
                         w: Walk, comps: seq<seq<ThreadId>>) {
    && comps != [] && End(w) < |sccs| && comps[|comps| - 1] == sccs[End(w)]
    && ChainWeight(es, comps) == Weight(nodes, w)
  }

  lemma PathStep(es: seq<Edge>, threads: set<ThreadId>, sccs: seq<seq<ThreadId>>,
                 nodes: seq<SuperNode>, dag: seq<DagEdge>, w: Walk, comps: seq<seq<ThreadId>>)
    requires Weighted(es, threads, sccs, nodes, dag) && IsPath(|nodes|, dag, w) && w.steps != []
    requires IsChain(es, threads, comps) && Passes(es, sccs, nodes, Init(w), comps)
    ensures IsChain(es, threads, comps + [sccs[Last(w).target]])
    ensures Passes(es, sccs, nodes, w, comps + [sccs[Last(w).target]])
  {
    ChainTakesEdge(es, threads, sccs, nodes, dag, comps, Last(w));
  }

  /** A path of the DAG is a chain of components of the same weight. */
  lemma {:induction false} PathIsChain(es: seq<Edge>, threads: set<ThreadId>, sccs: seq<seq<ThreadId>>,
                                       nodes: seq<SuperNode>, dag: seq<DagEdge>, w: Walk)
    requires Weighted(es, threads, sccs, nodes, dag) && IsPath(|nodes|, dag, w)
    ensures IsChain(es, threads, CompsOf(sccs, w)) && Passes(es, sccs, nodes, w, CompsOf(sccs, w))
    decreases |w.steps|
  {
    if w.steps == [] {
      ListedIsComponent(es, threads, sccs, w.start);
      SingleChain(es, threads, sccs[w.start]);
      CompsOfStart(sccs, w);
    } else {
      PathIsChain(es, threads, sccs, nodes, dag, Init(w));
      PathStep(es, threads, sccs, nodes, dag, w, CompsOf(sccs, Init(w)));
      CompsGrow(sccs, w);
    }
  }

  /** A chain of components is a path of the DAG of the same weight. */
  lemma {:induction false} ChainIsPath(es: seq<Edge>, threads: set<ThreadId>, sccs: seq<seq<ThreadId>>,
                                       nodes: seq<SuperNode>, dag: seq<DagEdge>, comps: seq<seq<ThreadId>>)
    returns (w: Walk)
    requires Weighted(es, threads, sccs, nodes, dag) && IsChain(es, threads, comps)
    ensures IsPath(|nodes|, dag, w) && Weight(nodes, w) == ChainWeight(es, comps)
    ensures End(w) < |sccs| && sccs[End(w)] == comps[|comps| - 1]
    decreases |comps|
  {
    if |comps| == 1 {
      var c := ComponentIsListed(es, threads, sccs, comps[0]);
      w := Walk(c, []);
    } else {
      var init, next := ChainParts(es, threads, comps);
      var front := ChainIsPath(es, threads, sccs, nodes, dag, init);
      w := PathTakesStep(es, threads, sccs, nodes, dag, front, next);
      WeightGrows(es, init, next);
    }
  }

  lemma ChainParts(es: seq<Edge>, threads: set<ThreadId>, comps: seq<seq<ThreadId>>)
    returns (init: seq<seq<ThreadId>>, next: seq<ThreadId>)
    requires IsChain(es, threads, comps) && |comps| > 1
    ensures comps == init + [next] && IsChain(es, threads, init) && IsComponent(es, threads, next)
    ensures init[|init| - 1] != next && HasAny(es, Across(init[|init| - 1], next))
  {
    var n := |comps| - 1;
    init, next := comps[..n], comps[n];
    assert forall i | 0 <= i < n :: init[i] == comps[i];
    assert comps[n - 1] != comps[n - 1 + 1] && HasAny(es, Across(comps[n - 1], comps[n - 1 + 1]));
  }

  lemma PathTakesStep(es: seq<Edge>, threads: set<ThreadId>, sccs: seq<seq<ThreadId>>,
                      nodes: seq<SuperNode>, dag: seq<DagEdge>, front: Walk, next: seq<ThreadId>) returns (w: Walk)
    requires Weighted(es, threads, sccs, nodes, dag) && IsPath(|nodes|, dag, front) && End(front) < |sccs|
    requires IsComponent(es, threads, next) && sccs[End(front)] != next
    requires HasAny(es, Across(sccs[End(front)], next))
    ensures IsPath(|nodes|, dag, w) && End(w) < |sccs| && sccs[End(w)] == next
    ensures Weight(nodes, w)
         == Weight(nodes, front) + Heaviest(es, Across(sccs[End(front)], next)) + SuperWeight(es, next)
  {
    var d := ComponentIsListed(es, threads, sccs, next);
    var x := JoiningEdge(es, threads, sccs, nodes, dag, End(front), d);
    ExtendPath(nodes, dag, front, x);
    w := Extend(front, x);
  }

  lemma JoiningEdge(es: seq<Edge>, threads: set<ThreadId>, sccs: seq<seq<ThreadId>>,
                    nodes: seq<SuperNode>, dag: seq<DagEdge>, c: nat, d: nat) returns (x: DagEdge)
    requires Weighted(es, threads, sccs, nodes, dag) && c < |sccs| && d < |sccs|
    requires sccs[c] != sccs[d] && HasAny(es, Across(sccs[c], sccs[d]))
    ensures x in dag && x.source == c && x.target == d && x.weight == Heaviest(es, Across(sccs[c], sccs[d]))
  {
    var e :| e in es && Across(sccs[c], sccs[d]).Has(e);
    assert Crosses(es, sccs, e, c, d);
    assert Linked(dag, c, d);
    x :| x in dag && x.source == c && x.target == d;
    DagEdgeWeight(es, threads, sccs, nodes, dag, x);
  }

  lemma RealizedMembers(es: seq<Edge>, threads: set<ThreadId>, sccs: seq<seq<ThreadId>>,
                        nodes: seq<SuperNode>, dag: seq<DagEdge>, cp: CriticalPath, w: Walk)
    requires Weighted(es, threads, sccs, nodes, dag) && Realizes(nodes, dag, cp, w)
    ensures MembersOf(cp.chain) == CompsOf(sccs, w)
    ensures forall i | 0 <= i < |cp.chain| :: Weighs(es, cp.chain[i].members, cp.chain[i].weight)
  {
    forall i | 0 <= i < |cp.chain|
      ensures cp.chain[i].members == CompsOf(sccs, w)[i]
      ensures Weighs(es, cp.chain[i].members, cp.chain[i].weight)
    {
      var v := NodesOf(w)[i];
      SuperWeightMeaning(es, sccs[v]);
      assert nodes[v] == SuperNode(v, sccs[v], SuperWeight(es, sccs[v]));
    }
  }

  lemma NoChainIsHeavier(es: seq<Edge>, threads: set<ThreadId>, sccs: seq<seq<ThreadId>>,
                         nodes: seq<SuperNode>, dag: seq<DagEdge>, total: nat, comps: seq<seq<ThreadId>>)
    requires Weighted(es, threads, sccs, nodes, dag) && IsChain(es, threads, comps)
    requires forall q | IsPath(|nodes|, dag, q) :: Weight(nodes, q) <= total
    ensures ChainWeight(es, comps) <= total
  {
    var v := ChainIsPath(es, threads, sccs, nodes, dag, comps);
  }

  /** The computed path is the heaviest chain of components. */
  lemma CriticalIsShown(es: seq<Edge>, threads: set<ThreadId>, sccs: seq<seq<ThreadId>>,
                        nodes: seq<SuperNode>, dag: seq<DagEdge>, cp: CriticalPath)
    requires Weighted(es, threads, sccs, nodes, dag) && IsCritical(nodes, dag, cp)
    ensures ShowsCritical(es, threads, cp)
  {
    var w :| Realizes(nodes, dag, cp, w);
    RealizedMembers(es, threads, sccs, nodes, dag, cp, w);
    PathIsChain(es, threads, sccs, nodes, dag, w);
    forall comps | IsChain(es, threads, comps) ensures ChainWeight(es, comps) <= cp.totalWeight {
      NoChainIsHeavier(es, threads, sccs, nodes, dag, cp.totalWeight, comps);
    }
  }

  /** One wait between two threads: both nodes and the edge weigh its delay. */
  lemma OneWaitWeighsThrice(e: Edge)
    requires e.src != e.dst
    ensures Weighs([e], [e.src], e.weight.attributedDelayMs) && Weighs([e], [e.dst], e.weight.attributedDelayMs)
    ensures ChainWeight([e], [[e.src], [e.dst]]) == 3 * e.weight.attributedDelayMs
  {
    var es, d := [e], e.weight.attributedDelayMs;
    assert e in es;
    SuperWeightMeaning(es, [e.src]);
    SuperWeightMeaning(es, [e.dst]);
    assert Incident(e, e.src) && Incident(e, e.dst);
    assert Weighs(es, [e.src], d) && Weighs(es, [e.dst], d);
    var s := Across([e.src], [e.dst]);
    assert s.Has(e) && IsHeaviest(es, s, d);
    HeaviestIsUnique(es, es, s, d);
    WeightGrows(es, [[e.src]], [e.dst]);
    assert [[e.src]] + [[e.dst]] == [[e.src], [e.dst]];
  }

  // ---------- only which edges there are matters ----------

  ghost predicate SameEdges(es: seq<Edge>, fs: seq<Edge>) {
    forall e :: e in es <==> e in fs
  }

  lemma WalkCarriesOver(es: seq<Edge>, fs: seq<Edge>, p: seq<ThreadId>)
    requires SameEdges(es, fs) && IsWalk(es, p)
    ensures IsWalk(fs, p)
  {
    forall i | 0 <= i < |p| - 1 ensures HasEdge(fs, p[i], p[i + 1]) {
      assert HasEdge(es, p[i], p[i + 1]);
    }
  }

  lemma ReachCarriesOver(es: seq<Edge>, fs: seq<Edge>, a: ThreadId, b: ThreadId)
    requires SameEdges(es, fs)
    ensures Reach(es, a, b) ==> Reach(fs, a, b)
  {
    if Reach(es, a, b) {
      var p :| WalkFrom(es, p, a, b);
      WalkCarriesOver(es, fs, p);
      assert WalkFrom(fs, p, a, b);
    }
  }

  lemma CycleCarriesOver(es: seq<Edge>, fs: seq<Edge>, t: ThreadId)
    requires SameEdges(es, fs) && OnCycle(es, t)
    ensures OnCycle(fs, t)
  {
    var p :| WalkFrom(es, p, t, t) && |p| >= 2;
    WalkCarriesOver(es, fs, p);
    assert WalkFrom(fs, p, t, t);
  }

  lemma MutualCarriesOver(es: seq<Edge>, fs: seq<Edge>, a: ThreadId, b: ThreadId)
    requires SameEdges(es, fs)
    ensures Mutual(es, a, b) <==> Mutual(fs, a, b)
  {
    ReachCarriesOver(es, fs, a, b);
    ReachCarriesOver(es, fs, b, a);
    ReachCarriesOver(fs, es, a, b);
    ReachCarriesOver(fs, es, b, a);
  }

  lemma ComponentCarriesOver(es: seq<Edge>, fs: seq<Edge>, threads: set<ThreadId>, members: seq<ThreadId>)
    requires SameEdges(es, fs)
    ensures IsComponent(es, threads, members) <==> IsComponent(fs, threads, members)
  {
    if members != [] {
      forall t ensures Mutual(es, members[0], t) <==> Mutual(fs, members[0], t) {
        MutualCarriesOver(es, fs, members[0], t);
      }
    }
  }

  lemma KnotCarriesOver(es: seq<Edge>, fs: seq<Edge>, kinds: map<ThreadId, NodeKind>, members: seq<ThreadId>)
    requires SameEdges(es, fs) && IsKnot(es, kinds, members)
    ensures IsKnot(fs, kinds, members)
  {
    ComponentCarriesOver(es, fs, kinds.Keys, members);
    forall s, t | s in members && Reach(fs, s, t) ensures t in members {
      ReachCarriesOver(fs, es, s, t);
    }
    var t :| t in members && OnCycle(es, t);
    CycleCarriesOver(es, fs, t);
  }

  lemma KnotsCarryOver(es: seq<Edge>, fs: seq<Edge>, kinds: map<ThreadId, NodeKind>, knots: seq<Knot>)
    requires SameEdges(es, fs) && ShowsKnots(es, kinds, knots)
    ensures ShowsKnots(fs, kinds, knots)
  {
    forall members ensures IsKnot(es, kinds, members) <==> IsKnot(fs, kinds, members) {
      if IsKnot(es, kinds, members) {
        KnotCarriesOver(es, fs, kinds, members);
      }
      if IsKnot(fs, kinds, members) {
        KnotCarriesOver(fs, es, kinds, members);
      }
    }
  }

  lemma SuperWeightCarriesOver(es: seq<Edge>, fs: seq<Edge>, members: seq<ThreadId>)
    requires SameEdges(es, fs)
    ensures SuperWeight(es, members) == SuperWeight(fs, members)
  {
    HeaviestIsUnique(es, fs, Within(members), Heaviest(es, Within(members)));
    if |members| == 1 {
      HeaviestIsUnique(es, fs, Touching(members[0]), Heaviest(es, Touching(members[0])));
    }
  }

  lemma ChainCarriesOver(es: seq<Edge>, fs: seq<Edge>, threads: set<ThreadId>, comps: seq<seq<ThreadId>>)
    requires SameEdges(es, fs) && IsChain(es, threads, comps)
    ensures IsChain(fs, threads, comps)
  {
    forall i | 0 <= i < |comps| ensures IsComponent(fs, threads, comps[i]) {
      ComponentCarriesOver(es, fs, threads, comps[i]);
    }
    forall i | 0 <= i < |comps| - 1
      ensures comps[i] != comps[i + 1] && HasAny(fs, Across(comps[i], comps[i + 1]))
    {
      assert HasAny(es, Across(comps[i], comps[i + 1]));
    }
  }

  lemma {:induction false} ChainWeightCarriesOver(es: seq<Edge>, fs: seq<Edge>, comps: seq<seq<ThreadId>>)
    requires SameEdges(es, fs)
    ensures ChainWeight(es, comps) == ChainWeight(fs, comps)
    decreases |comps|
  {
    if comps != [] {
      var n := |comps| - 1;
      SuperWeightCarriesOver(es, fs, comps[n]);
      if n > 0 {
        ChainWeightCarriesOver(es, fs, comps[..n]);
        var s := Across(comps[n - 1], comps[n]);
        HeaviestIsUnique(es, fs, s, Heaviest(es, s));
      }
    }
  }

  lemma CriticalCarriesOver(es: seq<Edge>, fs: seq<Edge>, threads: set<ThreadId>, cp: CriticalPath)
    requires SameEdges(es, fs) && ShowsCritical(es, threads, cp)
    ensures ShowsCritical(fs, threads, cp)
  {
    ChainCarriesOver(es, fs, threads, MembersOf(cp.chain));
    ChainWeightCarriesOver(es, fs, MembersOf(cp.chain));
    forall i | 0 <= i < |cp.chain| ensures Weighs(fs, cp.chain[i].members, cp.chain[i].weight) {
      SuperWeightCarriesOver(es, fs, cp.chain[i].members);
      SuperWeightMeaning(es, cp.chain[i].members);
      SuperWeightMeaning(fs, cp.chain[i].members);
    }
    forall comps | IsChain(fs, threads, comps) ensures ChainWeight(fs, comps) <= cp.totalWeight {
      ChainCarriesOver(fs, es, threads, comps);
      ChainWeightCarriesOver(es, fs, comps);
    }
  }

  /** Two critical paths of one graph have the same total. */
  lemma CriticalTotalIsDetermined(es: seq<Edge>, threads: set<ThreadId>, a: CriticalPath, b: CriticalPath)
    requires ShowsCritical(es, threads, a) && ShowsCritical(es, threads, b)
    ensures a.totalWeight == b.totalWeight
  {
    assert ChainWeight(es, MembersOf(a.chain)) <= b.totalWeight;
    assert ChainWeight(es, MembersOf(b.chain)) <= a.totalWeight;
  }

  /** Two knot lists of one graph name the same knots, and as many. */
  lemma KnotsAreDetermined(es: seq<Edge>, kinds: map<ThreadId, NodeKind>, a: seq<Knot>, b: seq<Knot>)
    requires ShowsKnots(es, kinds, a) && ShowsKnots(es, kinds, b)
    ensures forall members :: Listed(a, members) <==> Listed(b, members)
    ensures |a| == |b|
  {
    KnotSets(a);
    KnotSets(b);
    assert forall members :: members in KnotMembers(a) <==> Listed(a, members);
    assert forall members :: members in KnotMembers(b) <==> Listed(b, members);
    assert KnotMembers(a) == KnotMembers(b);
  }

  ghost function KnotMembers(knots: seq<Knot>): set<seq<ThreadId>> {
    set k | k in knots :: k.members
  }

  lemma {:induction false} KnotSets(knots: seq<Knot>)
    requires forall i, j | 0 <= i < j < |knots| :: knots[i].members != knots[j].members
    ensures |KnotMembers(knots)| == |knots|
  {
    if knots != [] {
      var n := |knots| - 1;
      var init, last := knots[..n], knots[n];
      KnotSets(init);
      assert knots == init + [last];
      assert last.members !in KnotMembers(init);
      assert KnotMembers(knots) == KnotMembers(init) + {last.members};
    }
  }
}
