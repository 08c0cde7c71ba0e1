/** Walks and reachability over an edge list, the notion behind components,
    sinks and knots (src/scc/tarjan.rs). */
module Reachability {
  import opened GraphTypes

  ghost predicate HasEdge(es: seq<Edge>, a: ThreadId, b: ThreadId) {
    exists e :: e in es && e.src == a && e.dst == b
  }

  ghost predicate IsWalk(es: seq<Edge>, p: seq<ThreadId>) {
    p != [] && forall i | 0 <= i < |p| - 1 :: HasEdge(es, p[i], p[i + 1])
  }

  ghost predicate WalkFrom(es: seq<Edge>, p: seq<ThreadId>, a: ThreadId, b: ThreadId) {
    IsWalk(es, p) && p[0] == a && p[|p| - 1] == b
  }

  ghost predicate Reach(es: seq<Edge>, a: ThreadId, b: ThreadId) {
    exists p :: WalkFrom(es, p, a, b)
  }

  ghost predicate Mutual(es: seq<Edge>, a: ThreadId, b: ThreadId) {
    Reach(es, a, b) && Reach(es, b, a)
  }

  /** `t` lies on a closed walk of at least one edge. */
  ghost predicate OnCycle(es: seq<Edge>, t: ThreadId) {
    exists p :: WalkFrom(es, p, t, t) && |p| >= 2
  }

  lemma ReachSelf(es: seq<Edge>, a: ThreadId)
    ensures Reach(es, a, a)
  {
    assert WalkFrom(es, [a], a, a);
  }

  lemma ReachEdge(es: seq<Edge>, e: Edge)
    requires e in es
    ensures Reach(es, e.src, e.dst)
  {
    assert HasEdge(es, e.src, e.dst);
    assert WalkFrom(es, [e.src, e.dst], e.src, e.dst);
  }

  lemma JoinWalks(es: seq<Edge>, p: seq<ThreadId>, q: seq<ThreadId>, a: ThreadId, b: ThreadId, c: ThreadId)
    requires WalkFrom(es, p, a, b) && WalkFrom(es, q, b, c)
    ensures WalkFrom(es, p + q[1..], a, c)
  {
    var r := p + q[1..];
    forall i | 0 <= i < |r| - 1 ensures HasEdge(es, r[i], r[i + 1]) {
      if i < |p| - 1 {
        assert r[i] == p[i] && r[i + 1] == p[i + 1];
      } else {
        assert r[i] == q[i - |p| + 1] && r[i + 1] == q[i - |p| + 2];
      }
    }
  }

  lemma ReachTransitive(es: seq<Edge>, a: ThreadId, b: ThreadId, c: ThreadId)
    requires Reach(es, a, b) && Reach(es, b, c)
    ensures Reach(es, a, c)
  {
    var p :| WalkFrom(es, p, a, b);
    var q :| WalkFrom(es, q, b, c);
    JoinWalks(es, p, q, a, b, c);
  }

  /** Every thread on a closed walk is mutually reachable with its start. */
  lemma FirstStepOfCycle(es: seq<Edge>, p: seq<ThreadId>, t: ThreadId)
    requires WalkFrom(es, p, t, t) && |p| >= 2
    ensures HasEdge(es, t, p[1]) && Mutual(es, t, p[1])
  {
    assert HasEdge(es, p[0], p[0 + 1]);
    var e :| e in es && e.src == p[0] && e.dst == p[1];
    ReachEdge(es, e);
    assert IsWalk(es, p[1..]) by {
      forall i | 0 <= i < |p[1..]| - 1 ensures HasEdge(es, p[1..][i], p[1..][i + 1]) {
        assert HasEdge(es, p[i + 1], p[i + 2]);
      }
    }
    assert WalkFrom(es, p[1..], p[1], t);
  }
}
