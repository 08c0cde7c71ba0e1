/** Super-node weights by the MAX heuristic (src/scc/heuristic.rs, and
    internal_edges in src/scc/tarjan.rs). */
module Heuristic {
  import opened Collections
  import opened GraphTypes
  import opened EdgeOrder
  import opened WaitGraph
  import opened Reachability
  import opened Condensation
  import opened Components

  // ---------- the heaviest of a selection of edges ----------

  /** Edges inside a component, at a thread, or from one component to another. */
  datatype Selection = Within(members: seq<ThreadId>) | Touching(t: ThreadId)
                     | Across(from: seq<ThreadId>, to: seq<ThreadId>)
  {
    predicate Has(e: Edge) {
      match this
      case Within(members) => e.src in members && e.dst in members
      case Touching(t) => e.src == t || e.dst == t
      case Across(from, to) => e.src in from && e.dst in to
    }
  }

  ghost predicate HasAny(es: seq<Edge>, s: Selection) {
    exists e :: e in es && s.Has(e)
  }

  /** No selected edge is heavier, and one is as heavy, unless there is none. */
  ghost predicate IsHeaviest(es: seq<Edge>, s: Selection, w: nat) {
    && (forall e | e in es && s.Has(e) :: e.weight.attributedDelayMs <= w)
    && (w == 0 || exists e :: e in es && s.Has(e) && e.weight.attributedDelayMs == w)
  }

  ghost function Heaviest(es: seq<Edge>, s: Selection): (w: nat)
    ensures IsHeaviest(es, s, w)
  {
    if es == [] then 0
    else
      var rest := Heaviest(es[1..], s);
      assert es == [es[0]] + es[1..];
      if s.Has(es[0]) && rest < es[0].weight.attributedDelayMs then es[0].weight.attributedDelayMs else rest
  }

  lemma HeaviestIsUnique(es: seq<Edge>, fs: seq<Edge>, s: Selection, w: nat)
    requires forall e :: e in es <==> e in fs
    requires IsHeaviest(es, s, w)
    ensures w == Heaviest(fs, s)
  {}

  /** The weight of a super-node: its heaviest inner edge; a single thread
      without one takes the heaviest edge that touches it. */
  ghost function SuperWeight(es: seq<Edge>, members: seq<ThreadId>): nat {
    if HasAny(es, Within(members)) then Heaviest(es, Within(members))
    else if |members| == 1 then Heaviest(es, Touching(members[0]))
    else 0
  }

  // ---------- the weight, read off the edges ----------

  ghost predicate Inner(e: Edge, members: seq<ThreadId>) {
    e.src in members && e.dst in members
  }

  ghost predicate Incident(e: Edge, t: ThreadId) {
    e.src == t || e.dst == t
  }

  /** `w` is the attributed delay of the heaviest inner edge of a component that
      has one. A single thread without a self edge takes the heaviest edge that
      leaves or enters it, and 0 if none does. */
  ghost predicate Weighs(es: seq<Edge>, members: seq<ThreadId>, w: nat) {
    if exists e :: e in es && Inner(e, members) then
      && (forall e | e in es && Inner(e, members) :: e.weight.attributedDelayMs <= w)
      && (exists e :: e in es && Inner(e, members) && e.weight.attributedDelayMs == w)
    else if |members| == 1 && exists e :: e in es && Incident(e, members[0]) then
      && (forall e | e in es && Incident(e, members[0]) :: e.weight.attributedDelayMs <= w)
      && (exists e :: e in es && Incident(e, members[0]) && e.weight.attributedDelayMs == w)
    else w == 0
  }

  lemma InnerIsWithin(es: seq<Edge>, members: seq<ThreadId>)
    ensures forall e :: Within(members).Has(e) <==> Inner(e, members)
    ensures HasAny(es, Within(members)) <==> exists e :: e in es && Inner(e, members)
  {
    if HasAny(es, Within(members)) {
      var e :| e in es && Within(members).Has(e);
      assert Inner(e, members);
    }
    if e :| e in es && Inner(e, members) {
      assert Within(members).Has(e);
    }
  }

  lemma IncidentIsTouching(t: ThreadId)
    ensures forall e :: Touching(t).Has(e) <==> Incident(e, t)
  {}

  /** A heaviest weight is attained as soon as anything is selected. */
  lemma HeaviestAttained(es: seq<Edge>, s: Selection, e: Edge)
    requires e in es && s.Has(e)
    ensures exists f :: f in es && s.Has(f) && f.weight.attributedDelayMs == Heaviest(es, s)
  {
    assert IsHeaviest(es, s, Heaviest(es, s));
    if Heaviest(es, s) == 0 {
      assert e.weight.attributedDelayMs == 0;
    }
  }

  lemma InnerWeight(es: seq<Edge>, members: seq<ThreadId>)
    requires exists e :: e in es && Inner(e, members)
    ensures Weighs(es, members, SuperWeight(es, members))
  {
    InnerIsWithin(es, members);
    var e :| e in es && Inner(e, members);
    HeaviestAttained(es, Within(members), e);
    var f :| f in es && Within(members).Has(f) && f.weight.attributedDelayMs == Heaviest(es, Within(members));
    assert Inner(f, members);
  }

  lemma SingleWeight(es: seq<Edge>, t: ThreadId)
    requires forall e | e in es :: !Inner(e, [t])
    ensures Weighs(es, [t], SuperWeight(es, [t]))
  {
    InnerIsWithin(es, [t]);
    IncidentIsTouching(t);
    if e :| e in es && Incident(e, t) {
      HeaviestAttained(es, Touching(t), e);
      var f :| f in es && Touching(t).Has(f) && f.weight.attributedDelayMs == Heaviest(es, Touching(t));
      assert Incident(f, t);
    } else {
      assert IsHeaviest(es, Touching(t), Heaviest(es, Touching(t)));
    }
  }

  /** The weight of every list of threads is the one read off the edges. */
  lemma SuperWeightMeaning(es: seq<Edge>, members: seq<ThreadId>)
    ensures forall w: nat :: w == SuperWeight(es, members) <==> Weighs(es, members, w)
  {
    if exists e :: e in es && Inner(e, members) {
      InnerWeight(es, members);
    } else if |members| == 1 {
      assert members == [members[0]];
      SingleWeight(es, members[0]);
    } else {
      InnerIsWithin(es, members);
    }
  }

  /** The last case never arises: a component of several threads has inner edges. */
  lemma LargeComponentsHaveEdges(es: seq<Edge>, threads: set<ThreadId>, members: seq<ThreadId>)
    requires IsComponent(es, threads, members) && |members| >= 2
    requires forall e | e in es :: e.src in threads && e.dst in threads
    ensures HasAny(es, Within(members))
  {
    var s, t := members[0], members[1];
    assert s in members && t in members && s != t;
    var p :| WalkFrom(es, p, s, t);
    var q :| WalkFrom(es, q, t, s);
    assert |p| >= 2;
    JoinWalks(es, p, q, s, t, s);
    var r := p + q[1..];
    assert r[1] == p[1];
    FirstStepOfCycle(es, r, s);
    var e :| e in es && e.src == s && e.dst == r[1];
    assert Within(members).Has(e);
  }

  // ---------- the source's loops ----------

  /** `map(..).max().unwrap_or(0)` over attributed delays. */
  function MaxDelay(rows: seq<Row>): (w: nat)
    ensures forall r | r in rows :: r.edge.weight.attributedDelayMs <= w
    ensures w == 0 || exists r :: r in rows && r.edge.weight.attributedDelayMs == w
  {
    if rows == [] then 0
    else
      var rest := MaxDelay(rows[1..]);
      assert rows == [rows[0]] + rows[1..];
      if rest < rows[0].edge.weight.attributedDelayMs then rows[0].edge.weight.attributedDelayMs else rest
  }

  /** `rows` are edges of the graph that `s` selects, and all of them. */
  ghost predicate Collects(rows: seq<Row>, es: seq<Edge>, s: Selection) {
    && (forall r | r in rows :: r.edge in es && s.Has(r.edge))
    && (forall e | e in es && s.Has(e) :: exists r :: r in rows && r.edge == e)
  }

  lemma MaxIsHeaviest(rows: seq<Row>, es: seq<Edge>, s: Selection)
    requires Collects(rows, es, s)
    ensures MaxDelay(rows) == Heaviest(es, s) && (rows != [] <==> HasAny(es, s))
  {
    if rows != [] {
      assert rows[0] in rows;
    }
    assert IsHeaviest(es, s, MaxDelay(rows));
  }

  /** Edges whose two ends are members. */
  method InternalEdges(graph: WaitForGraph, members: seq<ThreadId>) returns (result: seq<Row>)
    requires graph.Valid() && forall t | t in members :: t in graph.nodeMap
    ensures Collects(result, graph.Edges(), Within(members))
  {
    result := [];
    for i := 0 to |members|
      invariant forall r :: r in result <==> RowOf(graph, r) && r.edge.src in members[..i] && r.edge.dst in members
    {
      assert members[i] in members;
      var outgoing := graph.OutgoingEdges(graph.nodeMap[members[i]], |graph.edges|);
      for k := 0 to |outgoing|
        invariant forall r :: r in result <==>
                    && RowOf(graph, r) && r.edge.dst in members
                    && (r.edge.src in members[..i] || r in outgoing[..k])
      {
        assert outgoing[k] in outgoing;
        assert outgoing[..k + 1] == outgoing[..k] + [outgoing[k]];
        if outgoing[k].edge.dst in members {
          result := result + [outgoing[k]];
        }
      }
      assert outgoing[..|outgoing|] == outgoing;
      assert members[..i + 1] == members[..i] + [members[i]];
    }
    assert members[..|members|] == members;
    RowsCollect(graph, result, Within(members));
  }

  ghost predicate RowOf(graph: WaitForGraph, r: Row)
    requires graph.Valid()
    reads graph
  {
    r.index < |graph.Edges()| && r.edge == graph.Edges()[r.index]
  }

  lemma RowsCollect(graph: WaitForGraph, rows: seq<Row>, s: Selection)
    requires graph.Valid() && forall r :: r in rows <==> RowOf(graph, r) && s.Has(r.edge)
    ensures Collects(rows, graph.Edges(), s)
  {
    forall e | e in graph.Edges() && s.Has(e) ensures exists r :: r in rows && r.edge == e {
      var i :| 0 <= i < |graph.Edges()| && graph.Edges()[i] == e;
      assert RowOf(graph, Row(i, e));
    }
  }

  /** The edges of a thread, outgoing and incoming. */
  lemma IncidentCollect(graph: WaitForGraph, t: ThreadId)
    requires graph.Valid() && t in graph.nodeMap
    ensures var out, inc := graph.OutgoingEdges(graph.nodeMap[t], |graph.edges|),
                            graph.IncomingEdges(graph.nodeMap[t], |graph.edges|);
            Max(MaxDelay(out), MaxDelay(inc)) == Heaviest(graph.Edges(), Touching(t))
  {
    var out := graph.OutgoingEdges(graph.nodeMap[t], |graph.edges|);
    var inc := graph.IncomingEdges(graph.nodeMap[t], |graph.edges|);
    var es, w := graph.Edges(), Max(MaxDelay(out), MaxDelay(inc));
    forall e | e in es && Touching(t).Has(e) ensures e.weight.attributedDelayMs <= w {
      var i :| 0 <= i < |es| && es[i] == e;
      assert if e.src == t then Row(i, e) in out else Row(i, e) in inc;
    }
    assert IsHeaviest(es, Touching(t), w);
  }

  method MaxHeuristicWeight(graph: WaitForGraph, members: seq<ThreadId>) returns (w: nat)
    requires graph.Valid() && forall t | t in members :: t in graph.nodeMap
    ensures w == SuperWeight(graph.Edges(), members)
    ensures Weighs(graph.Edges(), members, w)
  {
    SuperWeightMeaning(graph.Edges(), members);
    var inner := InternalEdges(graph, members);
    MaxIsHeaviest(inner, graph.Edges(), Within(members));
    if |inner| > 0 {
      return MaxDelay(inner);
    }
    if |members| == 1 {
      var t := members[0];
      assert t in members;
      var index := graph.nodeMap[t];
      IncidentCollect(graph, t);
      return Max(MaxDelay(graph.OutgoingEdges(index, |graph.edges|)),
                 MaxDelay(graph.IncomingEdges(index, |graph.edges|)));
    }
    return 0;
  }

  /** Every super-node gets its weight; nothing else changes. */
  method ApplyMaxHeuristic(cdag: CondensationDag, graph: WaitForGraph)
    requires graph.Valid()
    requires forall c, t | 0 <= c < |cdag.nodes| && t in cdag.nodes[c].members :: t in graph.nodeMap
    modifies cdag`nodes
    ensures |cdag.nodes| == |old(cdag.nodes)|
    ensures forall c | 0 <= c < |cdag.nodes| ::
              cdag.nodes[c] == old(cdag.nodes)[c].(weight := SuperWeight(graph.Edges(), old(cdag.nodes)[c].members))
  {
    for i := 0 to |cdag.nodes|
      invariant |cdag.nodes| == |old(cdag.nodes)|
      invariant forall c | 0 <= c < i ::
                  cdag.nodes[c]
                  == old(cdag.nodes)[c].(weight := SuperWeight(graph.Edges(), old(cdag.nodes)[c].members))
      invariant forall c | i <= c < |cdag.nodes| :: cdag.nodes[c] == old(cdag.nodes)[c]
    {
      var weight := MaxHeuristicWeight(graph, cdag.nodes[i].members);
      cdag.nodes := cdag.nodes[i := cdag.nodes[i].(weight := weight)];
    }
  }
}
