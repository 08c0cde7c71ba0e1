/** Strongly connected components as sets of threads, and that every graph has a
    list of them (src/scc/tarjan.rs). */
module Components {
  import opened Collections
  import opened GraphTypes
  import opened Reachability
  import opened Condensation

  /** `members` lists one component of the graph in ascending order. */
  ghost predicate IsComponent(es: seq<Edge>, threads: set<ThreadId>, members: seq<ThreadId>) {
    && members != [] && Ascending(members)
    && forall t :: t in members <==> t in threads && Mutual(es, members[0], t)
  }

  lemma ListedIsComponent(es: seq<Edge>, threads: set<ThreadId>, sccs: seq<seq<ThreadId>>, c: nat)
    requires IsSccList(es, threads, sccs) && c < |sccs|
    ensures IsComponent(es, threads, sccs[c])
  {
    var first := sccs[c][0];
    assert first in sccs[c];
    forall t ensures t in sccs[c] <==> t in threads && Mutual(es, first, t) {
      if t in threads && Mutual(es, first, t) {
        var d: int :| 0 <= d < |sccs| && t in sccs[d];
        assert d == c;
      }
    }
  }

  lemma ComponentIsListed(es: seq<Edge>, threads: set<ThreadId>, sccs: seq<seq<ThreadId>>,
                          members: seq<ThreadId>) returns (c: nat)
    requires IsSccList(es, threads, sccs) && IsComponent(es, threads, members)
    ensures c < |sccs| && sccs[c] == members
  {
    var first := members[0];
    assert first in members;
    c :| 0 <= c < |sccs| && first in sccs[c];
    forall t ensures t in sccs[c] <==> t in members {
      if t in members {
        var d: int :| 0 <= d < |sccs| && t in sccs[d];
        assert d == c;
      }
    }
    AscendingUnique(sccs[c], members);
  }

  /** A list of components lists each component exactly once. */
  lemma ListsEachOnce(es: seq<Edge>, threads: set<ThreadId>, sccs: seq<seq<ThreadId>>, members: seq<ThreadId>)
    requires IsSccList(es, threads, sccs)
    ensures members in sccs <==> IsComponent(es, threads, members)
    ensures forall c, d | 0 <= c < d < |sccs| :: sccs[c] != sccs[d]
  {
    if members in sccs {
      var c :| 0 <= c < |sccs| && sccs[c] == members;
      ListedIsComponent(es, threads, sccs, c);
    }
    if IsComponent(es, threads, members) {
      var c := ComponentIsListed(es, threads, sccs, members);
    }
    ComponentsDisjoint(es, threads, sccs);
    forall c, d | 0 <= c < d < |sccs| ensures sccs[c] != sccs[d] {
      assert sccs[c][0] in sccs[c] && sccs[d][0] in sccs[d];
    }
  }

  // ---------- every graph has a component list ----------

  lemma MutualTransitive(es: seq<Edge>, a: ThreadId, b: ThreadId, c: ThreadId)
    requires Mutual(es, a, b) && Mutual(es, b, c)
    ensures Mutual(es, a, c) && Mutual(es, c, a)
  {
    ReachTransitive(es, a, b, c);
    ReachTransitive(es, c, b, a);
  }

  /** `rest` are the threads outside the component of `t`. */
  ghost predicate Outside(es: seq<Edge>, threads: set<ThreadId>, t: ThreadId, rest: set<ThreadId>) {
    forall s :: s in rest <==> s in threads && !Mutual(es, t, s)
  }

  ghost predicate Lists(es: seq<Edge>, threads: set<ThreadId>, t: ThreadId, members: seq<ThreadId>) {
    members != [] && Ascending(members) && forall s :: s in members <==> s in threads && Mutual(es, t, s)
  }

  lemma FirstOrTail(es: seq<Edge>, threads: set<ThreadId>, t: ThreadId, rest: set<ThreadId>,
                    first: seq<ThreadId>, tail: seq<seq<ThreadId>>, c: nat, d: nat, s: ThreadId, u: ThreadId)
    requires Lists(es, threads, t, first) && Outside(es, threads, t, rest) && IsSccList(es, rest, tail)
    requires c < |[first] + tail| && d < |[first] + tail| && s in ([first] + tail)[c] && u in ([first] + tail)[d]
    ensures c == d <==> Mutual(es, s, u)
  {
    if c == 0 && d == 0 {
      MutualTransitive(es, s, t, u);
    } else if c == 0 {
      assert u in tail[d - 1] && u in rest;
      if Mutual(es, s, u) {
        MutualTransitive(es, t, s, u);
      }
    } else if d == 0 {
      assert s in tail[c - 1] && s in rest;
      if Mutual(es, s, u) {
        MutualTransitive(es, t, u, s);
      }
    } else {
      assert s in tail[c - 1] && u in tail[d - 1];
    }
  }

  lemma FirstComponent(es: seq<Edge>, threads: set<ThreadId>, t: ThreadId, rest: set<ThreadId>,
                       first: seq<ThreadId>, tail: seq<seq<ThreadId>>)
    requires Lists(es, threads, t, first) && Outside(es, threads, t, rest) && IsSccList(es, rest, tail)
    ensures IsSccList(es, threads, [first] + tail)
  {
    var sccs := [first] + tail;
    assert forall c | 0 < c < |sccs| :: sccs[c] == tail[c - 1];
    forall s | s in threads ensures exists c :: 0 <= c < |sccs| && s in sccs[c] {
      if Mutual(es, t, s) {
        assert s in sccs[0];
      } else {
        assert s in rest;
        var c :| 0 <= c < |tail| && s in tail[c];
        assert s in sccs[c + 1];
      }
    }
    forall c, s | 0 <= c < |sccs| && s in sccs[c] ensures s in threads {
      if c > 0 {
        assert s in tail[c - 1] && s in rest;
      }
    }
    forall c, d, s, u | 0 <= c < |sccs| && 0 <= d < |sccs| && s in sccs[c] && u in sccs[d]
      ensures c == d <==> Mutual(es, s, u)
    {
      FirstOrTail(es, threads, t, rest, first, tail, c, d, s, u);
    }
  }

  lemma SplitComponent(es: seq<Edge>, threads: set<ThreadId>, t: ThreadId)
    returns (first: seq<ThreadId>, rest: set<ThreadId>)
    requires t in threads
    ensures Lists(es, threads, t, first) && Outside(es, threads, t, rest) && |rest| < |threads|
  {
    var inside := set s | s in threads && Mutual(es, t, s);
    first := SortedThreads(inside);
    rest := set s | s in threads && !Mutual(es, t, s);
    SortedThreadsLists(inside);
    ReachSelf(es, t);
    assert t in first;
    FewerThreads(rest, threads, t);
  }

  lemma FewerThreads(rest: set<ThreadId>, threads: set<ThreadId>, t: ThreadId)
    requires rest <= threads && t in threads && t !in rest
    ensures |rest| < |threads|
  {
    SubsetSize(rest, threads - {t});
  }

  /** Every graph has a list of its components. */
  lemma {:induction false} ComponentListExists(es: seq<Edge>, threads: set<ThreadId>)
    ensures exists sccs :: IsSccList(es, threads, sccs)
    decreases |threads|
  {
    if threads == {} {
      assert IsSccList(es, threads, []);
    } else {
      var t := Pick(threads);
      var first, rest := SplitComponent(es, threads, t);
      ComponentListExists(es, rest);
      var tail :| IsSccList(es, rest, tail);
      FirstComponent(es, threads, t, rest, first, tail);
    }
  }
}
