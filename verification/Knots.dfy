/** Sinks and knots of the condensation (src/scc/knot.rs), in terms of the
    wait-for graph itself. */
module Knots {
  import opened Collections
  import opened GraphTypes
  import opened Events
  import opened CorrelateSpec
  import opened CorrelateBooks
  import opened Attribution
  import opened EdgeOrder
  import opened WaitGraph
  import opened Reachability
  import opened Condensation

  datatype Knot = Knot(dagIndex: nat, members: seq<ThreadId>)

  predicate HasSelfLoop(graph: WaitForGraph, t: ThreadId)
    requires graph.Valid()
    reads graph
  {
    match graph.NodeIndex(t)
    case None => false
    case Some(index) =>
      var rows := graph.OutgoingEdges(index, |graph.edges|);
      exists i :: 0 <= i < |rows| && rows[i].edge.dst == t
  }

  predicate IsPureKernelScc(graph: WaitForGraph, members: seq<ThreadId>)
    requires graph.Valid() && forall t | t in members :: t in graph.nodeMap
    reads graph
  {
    forall i :: 0 <= i < |members| ==> graph.nodes[graph.nodeMap[members[i]]].kind == KernelThread
  }

  /** The two business rules on a sink. */
  predicate PassesRules(graph: WaitForGraph, members: seq<ThreadId>)
    requires graph.Valid() && forall t | t in members :: t in graph.nodeMap
    reads graph
  {
    && !(|members| == 1 && !HasSelfLoop(graph, members[0]))
    && !IsPureKernelScc(graph, members)
  }

  ghost predicate MembersKnown(cdag: CondensationDag, graph: WaitForGraph)
    reads cdag, graph
  {
    forall c, t | 0 <= c < |cdag.nodes| && t in cdag.nodes[c].members :: t in graph.nodeMap
  }

  ghost predicate IndicesAscend(knots: seq<Knot>) {
    forall i, j | 0 <= i < j < |knots| :: knots[i].dagIndex < knots[j].dagIndex
  }

  /** One knot per sink that passes both rules, in index order. */
  function DetectKnots(cdag: CondensationDag, graph: WaitForGraph): (knots: seq<Knot>)
    requires graph.Valid() && MembersKnown(cdag, graph)
    reads cdag, graph
    ensures forall k :: k in knots <==>
              && k.dagIndex < |cdag.nodes| && cdag.OutDegree(k.dagIndex) == 0
              && k.members == cdag.nodes[k.dagIndex].members
              && PassesRules(graph, k.members)
    ensures IndicesAscend(knots)
  {
    KnotsAscend(cdag, graph, cdag.Sinks());
    FilterKnots(cdag, graph, cdag.Sinks())
  }

  function FilterKnots(cdag: CondensationDag, graph: WaitForGraph, sinks: seq<nat>): (knots: seq<Knot>)
    requires graph.Valid() && MembersKnown(cdag, graph)
    requires forall i | 0 <= i < |sinks| :: sinks[i] < |cdag.nodes|
    reads cdag, graph
    ensures forall k :: k in knots <==>
              && k.dagIndex in sinks && k.members == cdag.nodes[k.dagIndex].members
              && PassesRules(graph, k.members)
  {
    if sinks == [] then []
    else
      var c := sinks[0];
      assert c in sinks;
      var rest := FilterKnots(cdag, graph, sinks[1..]);
      assert sinks == [c] + sinks[1..];
      if PassesRules(graph, cdag.nodes[c].members) then [Knot(c, cdag.nodes[c].members)] + rest else rest
  }

  lemma {:induction false} KnotsAscend(cdag: CondensationDag, graph: WaitForGraph, sinks: seq<nat>)
    requires graph.Valid() && MembersKnown(cdag, graph)
    requires forall i | 0 <= i < |sinks| :: sinks[i] < |cdag.nodes|
    requires forall i, j | 0 <= i < j < |sinks| :: sinks[i] < sinks[j]
    ensures IndicesAscend(FilterKnots(cdag, graph, sinks))
  {
    if sinks != [] {
      var c, rest := sinks[0], FilterKnots(cdag, graph, sinks[1..]);
      KnotsAscend(cdag, graph, sinks[1..]);
      forall k | k in rest ensures c < k.dagIndex {
        var i :| 0 <= i < |sinks[1..]| && sinks[1..][i] == k.dagIndex;
      }
      assert c in sinks;
      AscendCons(Knot(c, cdag.nodes[c].members), rest);
    }
  }

  lemma AscendCons(k: Knot, rest: seq<Knot>)
    requires IndicesAscend(rest) && forall r | r in rest :: k.dagIndex < r.dagIndex
    ensures IndicesAscend([k] + rest)
  {}

  // ---------- what a knot is ----------

  /** Nothing outside `members` can be reached from inside. */
  ghost predicate Closed(es: seq<Edge>, members: seq<ThreadId>) {
    forall s, t | s in members && Reach(es, s, t) :: t in members
  }

  lemma {:induction false} ClosedWalk(es: seq<Edge>, members: seq<ThreadId>, p: seq<ThreadId>)
    requires forall e | e in es && e.src in members :: e.dst in members
    requires IsWalk(es, p) && p[0] in members
    ensures p[|p| - 1] in members
    decreases |p|
  {
    if |p| > 1 {
      assert HasEdge(es, p[0], p[0 + 1]);
      assert IsWalk(es, p[1..]) by {
        forall i | 0 <= i < |p[1..]| - 1 ensures HasEdge(es, p[1..][i], p[1..][i + 1]) {
          assert HasEdge(es, p[i + 1], p[i + 1 + 1]);
        }
      }
      ClosedWalk(es, members, p[1..]);
    }
  }

  /** A component is a sink of the DAG exactly when it is closed in the graph. */
  lemma SinkIsClosed(es: seq<Edge>, threads: set<ThreadId>, sccs: seq<seq<ThreadId>>, dag: seq<DagEdge>, c: nat)
    requires IsSccList(es, threads, sccs) && Condenses(es, sccs, dag) && c < |sccs|
    requires forall e | e in es :: e.src in threads && e.dst in threads
    ensures CountOut(dag, c) == 0 <==> Closed(es, sccs[c])
  {
    CountOutZero(dag, c);
    if CountOut(dag, c) == 0 {
      forall e | e in es && e.src in sccs[c] ensures e.dst in sccs[c] {
        var d: int :| 0 <= d < |sccs| && e.dst in sccs[d];
        assert Crosses(es, sccs, e, c, d);
        assert !Linked(dag, c, d);
      }
      forall s, t | s in sccs[c] && Reach(es, s, t) ensures t in sccs[c] {
        var p :| WalkFrom(es, p, s, t);
        ClosedWalk(es, sccs[c], p);
      }
    } else {
      var d: nat :| Linked(dag, c, d);
      LinkLifts(es, threads, sccs, dag, c, d);
      var s, t := sccs[c][0], sccs[d][0];
      assert s in sccs[c] && t in sccs[d];
      assert Reach(es, s, t);
      ReachSelf(es, t);
      assert t in sccs[c] ==> Mutual(es, t, t);
    }
  }

  /** The singleton rule asks for a cycle: a component is nontrivial exactly when
      some member lies on a closed walk. */
  lemma NontrivialIsCyclic(es: seq<Edge>, threads: set<ThreadId>, sccs: seq<seq<ThreadId>>, c: nat)
    requires IsSccList(es, threads, sccs) && c < |sccs|
    requires forall e | e in es :: e.src in threads && e.dst in threads
    ensures (|sccs[c]| >= 2 || HasEdge(es, sccs[c][0], sccs[c][0])) <==>
              exists t :: t in sccs[c] && OnCycle(es, t)
  {
    var members := sccs[c];
    var first := members[0];
    assert first in members;
    if HasEdge(es, first, first) {
      assert WalkFrom(es, [first, first], first, first);
      assert OnCycle(es, first);
    } else if |members| >= 2 {
      var second := members[1];
      assert second in members && second != first;
      assert Mutual(es, first, second);
      var p :| WalkFrom(es, p, first, second);
      var q :| WalkFrom(es, q, second, first);
      assert |p| >= 2;
      JoinWalks(es, p, q, first, second, first);
      assert OnCycle(es, first);
    }
    if exists t :: t in members && OnCycle(es, t) {
      var t :| t in members && OnCycle(es, t);
      var p :| WalkFrom(es, p, t, t) && |p| >= 2;
      FirstStepOfCycle(es, p, t);
      var next := p[1];
      var e :| e in es && e.src == t && e.dst == next;
      var d: int :| 0 <= d < |sccs| && next in sccs[d];
      assert d == c;
      if |members| == 1 {
        var k :| 0 <= k < |members| && members[k] == next;
      }
    }
  }

  lemma EdgesHaveNodes(graph: WaitForGraph)
    requires graph.Valid()
    ensures forall e | e in graph.Edges() :: e.src in graph.Kinds().Keys && e.dst in graph.Kinds().Keys
  {
    forall e | e in graph.Edges()
      ensures e.src in graph.Kinds().Keys && e.dst in graph.Kinds().Keys
    {
      var i :| 0 <= i < |graph.Edges()| && graph.Edges()[i] == e;
    }
  }

  lemma SelfLoopMeaning(graph: WaitForGraph, t: ThreadId)
    requires graph.Valid()
    ensures HasSelfLoop(graph, t) <==> HasEdge(graph.Edges(), t, t)
  {
    var es := graph.Edges();
    EdgesHaveNodes(graph);
    if HasEdge(es, t, t) {
      var e :| e in es && e.src == t && e.dst == t;
      var i :| 0 <= i < |es| && es[i] == e;
      var rows := graph.OutgoingEdges(graph.nodeMap[t], |graph.edges|);
      assert Row(i, e) in rows;
      var k :| 0 <= k < |rows| && rows[k] == Row(i, e);
      assert rows[k].edge.dst == t;
    }
    if HasSelfLoop(graph, t) {
      var rows := graph.OutgoingEdges(graph.nodeMap[t], |graph.edges|);
      var k :| 0 <= k < |rows| && rows[k].edge.dst == t;
      assert rows[k] in rows;
    }
  }

  lemma PureKernelMeaning(graph: WaitForGraph, members: seq<ThreadId>)
    requires graph.Valid() && forall t | t in members :: t in graph.nodeMap
    ensures IsPureKernelScc(graph, members) <==> !exists t :: t in members && graph.Kinds()[t] != KernelThread
  {
    if !IsPureKernelScc(graph, members) {
      var i :| 0 <= i < |members| && graph.nodes[graph.nodeMap[members[i]]].kind != KernelThread;
      assert members[i] in members;
    }
  }

  lemma RulesMeaning(graph: WaitForGraph, sccs: seq<seq<ThreadId>>, c: nat)
    requires graph.Valid() && IsSccList(graph.Edges(), graph.Kinds().Keys, sccs) && c < |sccs|
    requires forall t | t in sccs[c] :: t in graph.nodeMap
    ensures PassesRules(graph, sccs[c]) <==>
              && (exists t :: t in sccs[c] && OnCycle(graph.Edges(), t))
              && (exists t :: t in sccs[c] && graph.Kinds()[t] != KernelThread)
  {
    NontrivialIsCyclic(graph.Edges(), graph.Kinds().Keys, sccs, c);
    SelfLoopMeaning(graph, sccs[c][0]);
    PureKernelMeaning(graph, sccs[c]);
  }

  /** A knot, said of the graph: a component that no wait leaves, in which some
      thread transitively waits for itself, and that is not all kernel threads. */
  lemma KnotMeaning(graph: WaitForGraph, cdag: CondensationDag, sccs: seq<seq<ThreadId>>, c: nat)
    requires graph.Valid() && IsSccList(graph.Edges(), graph.Kinds().Keys, sccs)
    requires |cdag.nodes| == |sccs| && forall d | 0 <= d < |sccs| :: cdag.nodes[d].members == sccs[d]
    requires Condenses(graph.Edges(), sccs, cdag.edges)
    requires MembersKnown(cdag, graph) && c < |sccs|
    ensures Knot(c, sccs[c]) in DetectKnots(cdag, graph) <==>
              && Closed(graph.Edges(), sccs[c])
              && (exists t :: t in sccs[c] && OnCycle(graph.Edges(), t))
              && (exists t :: t in sccs[c] && graph.Kinds()[t] != KernelThread)
  {
    EdgesHaveNodes(graph);
    SinkIsClosed(graph.Edges(), graph.Kinds().Keys, sccs, cdag.edges, c);
    RulesMeaning(graph, sccs, c);
  }

  // ---------- every wait ends in a sink ----------

  ghost predicate DagReaches(dag: seq<DagEdge>, c: nat, d: nat) {
    exists p :: DagWalkFrom(dag, p, c, d)
  }

  ghost function DagReach(dag: seq<DagEdge>, n: nat, c: nat): set<nat> {
    set d: nat | d < n && DagReaches(dag, c, d)
  }

  lemma DagReachShrinks(es: seq<Edge>, threads: set<ThreadId>, sccs: seq<seq<ThreadId>>, dag: seq<DagEdge>,
                        c: nat, d: nat)
    requires IsSccList(es, threads, sccs) && Condenses(es, sccs, dag) && Linked(dag, c, d)
    ensures c < |sccs| && d < |sccs|
    ensures DagReach(dag, |sccs|, d) < DagReach(dag, |sccs|, c)
  {
    LinkLifts(es, threads, sccs, dag, c, d);
    forall x: nat | x in DagReach(dag, |sccs|, d) ensures x in DagReach(dag, |sccs|, c) {
      var p :| DagWalkFrom(dag, p, d, x);
      var q := [c] + p;
      assert DagWalkFrom(dag, q, c, x) by {
        forall i | 0 <= i < |q| - 1 ensures Linked(dag, q[i], q[i + 1]) {
          assert i > 0 ==> Linked(dag, p[i - 1], p[i - 1 + 1]);
        }
      }
    }
    assert DagWalkFrom(dag, [c], c, c);
    assert c in DagReach(dag, |sccs|, c);
    if c in DagReach(dag, |sccs|, d) {
      var p :| DagWalkFrom(dag, p, d, c);
      var q := [c] + p;
      forall i | 0 <= i < |q| - 1 ensures Linked(dag, q[i], q[i + 1]) {
        assert i > 0 ==> Linked(dag, p[i - 1], p[i - 1 + 1]);
      }
      CondensationIsAcyclic(es, threads, sccs, dag, q);
    }
  }

  /** From every super-node a sink can be reached. */
  lemma {:induction false} SinkBelow(es: seq<Edge>, threads: set<ThreadId>, sccs: seq<seq<ThreadId>>,
                                     dag: seq<DagEdge>, c: nat) returns (sink: nat)
    requires IsSccList(es, threads, sccs) && Condenses(es, sccs, dag) && c < |sccs|
    ensures sink < |sccs| && CountOut(dag, sink) == 0
    ensures forall s, t | s in sccs[c] && t in sccs[sink] :: Reach(es, s, t)
    decreases DagReach(dag, |sccs|, c)
  {
    CountOutZero(dag, c);
    if CountOut(dag, c) == 0 {
      sink := c;
      forall s, t | s in sccs[c] && t in sccs[c] ensures Reach(es, s, t) {
        assert Mutual(es, s, t);
      }
    } else {
      var d: nat :| Linked(dag, c, d);
      DagReachShrinks(es, threads, sccs, dag, c, d);
      LinkLifts(es, threads, sccs, dag, c, d);
      sink := SinkBelow(es, threads, sccs, dag, d);
      forall s, t | s in sccs[c] && t in sccs[sink] ensures Reach(es, s, t) {
        var via := sccs[d][0];
        assert via in sccs[d];
        ReachTransitive(es, s, via, t);
      }
    }
  }

  /** Every thread reaches a component that no wait leaves. */
  lemma EveryThreadReachesASink(es: seq<Edge>, threads: set<ThreadId>, sccs: seq<seq<ThreadId>>,
                                dag: seq<DagEdge>, s: ThreadId)
    requires IsSccList(es, threads, sccs) && Condenses(es, sccs, dag) && s in threads
    requires forall e | e in es :: e.src in threads && e.dst in threads
    ensures exists c: nat, t :: c < |sccs| && CountOut(dag, c) == 0 && Closed(es, sccs[c])
                                && t in sccs[c] && Reach(es, s, t)
  {
    var c: int :| 0 <= c < |sccs| && s in sccs[c];
    var sink := SinkBelow(es, threads, sccs, dag, c);
    SinkIsClosed(es, threads, sccs, dag, sink);
    var t := sccs[sink][0];
    assert t in sccs[sink];
    assert Reach(es, s, t);
  }

  // ---------- correlated graphs ----------

  /** The edge list a knot search sees: correlated, then possibly relabelled. */
  ghost predicate CorrelatedShape(es: seq<Edge>, kinds: map<ThreadId, NodeKind>) {
    && NodesMatch(es, kinds) && DiskPaired(es)
    && forall e | e in es :: !(e.src == DISK_TID && e.dst == DISK_TID)
  }

  /** Every thread with a completed request shares a component with the disk. */
  lemma DiskUsersFormOneComponent(es: seq<Edge>, kinds: map<ThreadId, NodeKind>, t: ThreadId)
    requires CorrelatedShape(es, kinds) && (Requests(es, t) || Returns(es, t))
    ensures Mutual(es, t, DISK_TID)
  {
    assert Requests(es, t) && Returns(es, t);
    var e :| e in es && e.src == t && e.dst == DISK_TID;
    ReachEdge(es, e);
    var f :| f in es && f.src == DISK_TID && f.dst == t;
    ReachEdge(es, f);
  }

  /** In a correlated graph every component, hence every knot, contains a user
      thread: the disk is never alone. */
  lemma EveryComponentHasAUserThread(es: seq<Edge>, kinds: map<ThreadId, NodeKind>,
                                     sccs: seq<seq<ThreadId>>, c: nat)
    requires CorrelatedShape(es, kinds) && IsSccList(es, kinds.Keys, sccs) && c < |sccs|
    ensures exists t :: t in sccs[c] && t in kinds && kinds[t] == UserThread
  {
    var s := sccs[c][0];
    assert s in sccs[c] && s in kinds.Keys;
    if s == DISK_TID {
      assert Touched(es, s);
      var e :| e in es && (e.src == s || e.dst == s);
      var t := if e.src == s then e.dst else e.src;
      assert Requests(es, t) || Returns(es, t);
      DiskUsersFormOneComponent(es, kinds, t);
      assert t in kinds.Keys;
      var d: int :| 0 <= d < |sccs| && t in sccs[d];
      assert d == c;
    }
  }

  lemma BuiltHasShape(m: Machine, left: Option<nat>)
    requires WellBuilt(m)
    ensures CorrelatedShape(m.edges, m.kinds) && CorrelatedShape(Redistribute(m.edges, left), m.kinds)
  {
    SameEndpoints(m.edges, Redistribute(m.edges, left), m.kinds);
  }

  lemma CorrelatedGraphShape(h: seq<WperfEvent>, thresholdNs: nat, order: seq<u32>, left: Option<nat>)
    ensures var m := Correlate(h, thresholdNs, order);
            CorrelatedShape(m.edges, m.kinds) && CorrelatedShape(Redistribute(m.edges, left), m.kinds)
  {
    GraphIsWellBuilt(h, thresholdNs, order);
    BuiltHasShape(Correlate(h, thresholdNs, order), left);
  }

  ghost predicate EndpointsOf(es: seq<Edge>, fs: seq<Edge>) {
    forall e | e in es :: HasEdge(fs, e.src, e.dst)
  }

  lemma EndpointsCarryOver(es: seq<Edge>, fs: seq<Edge>, t: ThreadId)
    requires EndpointsOf(es, fs)
    ensures Requests(es, t) ==> Requests(fs, t)
    ensures Returns(es, t) ==> Returns(fs, t)
    ensures Touched(es, t) ==> Touched(fs, t)
  {
    if Requests(es, t) {
      var e :| e in es && e.src == t && e.dst == DISK_TID;
      assert HasEdge(fs, e.src, e.dst);
    }
    if Returns(es, t) {
      var e :| e in es && e.src == DISK_TID && e.dst == t;
      assert HasEdge(fs, e.src, e.dst);
    }
    if Touched(es, t) {
      var e :| e in es && (e.src == t || e.dst == t);
      assert HasEdge(fs, e.src, e.dst);
    }
  }

  lemma PositionwiseEndpoints(es: seq<Edge>, fs: seq<Edge>)
    requires |fs| == |es|
    requires forall i | 0 <= i < |es| :: fs[i].src == es[i].src && fs[i].dst == es[i].dst
    ensures EndpointsOf(es, fs)
  {
    forall e | e in es ensures HasEdge(fs, e.src, e.dst) {
      var i :| 0 <= i < |es| && es[i] == e;
      assert fs[i] in fs;
    }
  }

  lemma SameEndpoints(es: seq<Edge>, rs: seq<Edge>, kinds: map<ThreadId, NodeKind>)
    requires CorrelatedShape(es, kinds) && |rs| == |es|
    requires forall i | 0 <= i < |es| :: rs[i].src == es[i].src && rs[i].dst == es[i].dst
    ensures CorrelatedShape(rs, kinds)
  {
    PositionwiseEndpoints(es, rs);
    PositionwiseEndpoints(rs, es);
    forall r | r in rs
      ensures r.src in kinds && r.dst in kinds && !(r.src == DISK_TID && r.dst == DISK_TID)
    {
      assert HasEdge(es, r.src, r.dst);
    }
    forall t ensures Requests(rs, t) <==> Returns(rs, t) {
      EndpointsCarryOver(es, rs, t);
      EndpointsCarryOver(rs, es, t);
    }
    forall t | t in kinds ensures Touched(rs, t) {
      EndpointsCarryOver(es, rs, t);
    }
  }
}
