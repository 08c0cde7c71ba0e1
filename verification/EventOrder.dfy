/** The total order derived for events, field by field in declaration order
    (src/format/event.rs), and sorting by it (src/pipeline.rs). */
module EventOrder {
  import opened Events

  const FIELDS: nat := 11

  /** The fields in declaration order. */
  function Field(k: nat, e: WperfEvent): int {
    match k
    case 0 => e.timestampNs
    case 1 => e.pid
    case 2 => e.tid
    case 3 => e.prevTid
    case 4 => e.nextTid
    case 5 => e.prevPid
    case 6 => e.nextPid
    case 7 => e.cpu
    case 8 => e.eventType
    case 9 => e.prevState
    case _ => e.flags
  }

  /** Lexicographic comparison from field `k` on. */
  predicate LeFrom(k: nat, a: WperfEvent, b: WperfEvent)
    decreases FIELDS - k
  {
    k >= FIELDS || Field(k, a) < Field(k, b) || (Field(k, a) == Field(k, b) && LeFrom(k + 1, a, b))
  }

  predicate Le(a: WperfEvent, b: WperfEvent) {
    LeFrom(0, a, b)
  }

  /** The derived comparison written out: the first field in which the events
      differ decides, taken in the order of declaration. */
  predicate NotAfter(a: WperfEvent, b: WperfEvent) {
    if a.timestampNs != b.timestampNs then a.timestampNs < b.timestampNs
    else if a.pid != b.pid then a.pid < b.pid
    else if a.tid != b.tid then a.tid < b.tid
    else if a.prevTid != b.prevTid then a.prevTid < b.prevTid
    else if a.nextTid != b.nextTid then a.nextTid < b.nextTid
    else if a.prevPid != b.prevPid then a.prevPid < b.prevPid
    else if a.nextPid != b.nextPid then a.nextPid < b.nextPid
    else if a.cpu != b.cpu then a.cpu < b.cpu
    else if a.eventType != b.eventType then a.eventType < b.eventType
    else if a.prevState != b.prevState then a.prevState < b.prevState
    else a.flags <= b.flags
  }

  lemma LastFields(a: WperfEvent, b: WperfEvent)
    ensures LeFrom(7, a, b) <==>
            if a.cpu != b.cpu then a.cpu < b.cpu
            else if a.eventType != b.eventType then a.eventType < b.eventType
            else if a.prevState != b.prevState then a.prevState < b.prevState
            else a.flags <= b.flags
  {
    assert LeFrom(11, a, b);
    assert LeFrom(10, a, b) <==> a.flags < b.flags || (a.flags == b.flags && LeFrom(11, a, b));
    assert LeFrom(9, a, b) <==> a.prevState < b.prevState || (a.prevState == b.prevState && LeFrom(10, a, b));
    assert LeFrom(8, a, b) <==> a.eventType < b.eventType || (a.eventType == b.eventType && LeFrom(9, a, b));
  }

  /** The order of events is that comparison. */
  lemma LeMeaning(a: WperfEvent, b: WperfEvent)
    ensures Le(a, b) <==> NotAfter(a, b)
  {
    LastFields(a, b);
    assert LeFrom(6, a, b) <==> a.nextPid < b.nextPid || (a.nextPid == b.nextPid && LeFrom(7, a, b));
    assert LeFrom(5, a, b) <==> a.prevPid < b.prevPid || (a.prevPid == b.prevPid && LeFrom(6, a, b));
    assert LeFrom(4, a, b) <==> a.nextTid < b.nextTid || (a.nextTid == b.nextTid && LeFrom(5, a, b));
    assert LeFrom(3, a, b) <==> a.prevTid < b.prevTid || (a.prevTid == b.prevTid && LeFrom(4, a, b));
    assert LeFrom(2, a, b) <==> a.tid < b.tid || (a.tid == b.tid && LeFrom(3, a, b));
    assert LeFrom(1, a, b) <==> a.pid < b.pid || (a.pid == b.pid && LeFrom(2, a, b));
  }

  lemma {:induction false} LeFromTotal(k: nat, a: WperfEvent, b: WperfEvent)
    ensures LeFrom(k, a, a) && (LeFrom(k, a, b) || LeFrom(k, b, a))
    decreases FIELDS - k
  {
    if k < FIELDS {
      LeFromTotal(k + 1, a, b);
    }
  }

  lemma LeTotal(a: WperfEvent, b: WperfEvent)
    ensures Le(a, a) && (Le(a, b) || Le(b, a))
  {
    LeFromTotal(0, a, b);
  }

  lemma {:induction false} SameFields(k: nat, a: WperfEvent, b: WperfEvent)
    requires LeFrom(k, a, b) && LeFrom(k, b, a)
    ensures forall i: nat | k <= i < FIELDS :: Field(i, a) == Field(i, b)
    decreases FIELDS - k
  {
    if k < FIELDS {
      SameFields(k + 1, a, b);
    }
  }

  /** Events with equal sort keys are equal, so the sort need not be stable. */
  lemma LeAntisymmetric(a: WperfEvent, b: WperfEvent)
    requires Le(a, b) && Le(b, a)
    ensures a == b
  {
    SameFields(0, a, b);
    assert Field(0, a) == Field(0, b) && Field(1, a) == Field(1, b) && Field(2, a) == Field(2, b);
    assert Field(3, a) == Field(3, b) && Field(4, a) == Field(4, b) && Field(5, a) == Field(5, b);
    assert Field(6, a) == Field(6, b) && Field(7, a) == Field(7, b) && Field(8, a) == Field(8, b);
    assert Field(9, a) == Field(9, b) && Field(10, a) == Field(10, b);
  }

  lemma {:induction false} LeFromTransitive(k: nat, a: WperfEvent, b: WperfEvent, c: WperfEvent)
    requires LeFrom(k, a, b) && LeFrom(k, b, c)
    ensures LeFrom(k, a, c)
    decreases FIELDS - k
  {
    if k < FIELDS && Field(k, a) == Field(k, b) == Field(k, c) {
      LeFromTransitive(k + 1, a, b, c);
    }
  }

  lemma LeTransitive(a: WperfEvent, b: WperfEvent, c: WperfEvent)
    requires Le(a, b) && Le(b, c)
    ensures Le(a, c)
  {
    LeFromTransitive(0, a, b, c);
  }

  ghost predicate Sorted(es: seq<WperfEvent>) {
    forall i, j | 0 <= i < j < |es| :: Le(es[i], es[j])
  }

  ghost predicate TimeOrdered(es: seq<WperfEvent>) {
    forall i, j | 0 <= i < j < |es| :: es[i].timestampNs <= es[j].timestampNs
  }

  /** A sorted sequence is determined by its elements. */
  lemma {:induction false} SortedUnique(a: seq<WperfEvent>, b: seq<WperfEvent>)
    requires Sorted(a) && Sorted(b) && multiset(a) == multiset(b)
    ensures a == b
  {
    if a == [] {
      assert |multiset(b)| == 0;
    } else {
      assert a[0] in multiset(b);
      assert b[0] in multiset(a);
      LeTotal(a[0], a[0]);
      LeAntisymmetric(a[0], b[0]);
      assert a == [a[0]] + a[1..] && b == [b[0]] + b[1..];
      assert multiset(a[1..]) == multiset(a) - multiset{a[0]};
      assert multiset(b[1..]) == multiset(b) - multiset{b[0]};
      SortedUnique(a[1..], b[1..]);
    }
  }

  ghost predicate IsLeast(e: WperfEvent, m: multiset<WperfEvent>) {
    e in m && forall x | x in m :: Le(e, x)
  }

  lemma {:induction false} LeastExists(m: multiset<WperfEvent>) returns (e: WperfEvent)
    requires |m| > 0
    ensures IsLeast(e, m)
    decreases |m|
  {
    var y :| y in m;
    LeTotal(y, y);
    var rest := m - multiset{y};
    assert forall x | x in m :: x == y || x in rest;
    e := y;
    if |rest| > 0 {
      var z := LeastExists(rest);
      LeTotal(y, z);
      if !Le(y, z) {
        e := z;
      } else {
        forall x | x in rest ensures Le(y, x) {
          LeTransitive(y, z, x);
        }
      }
    }
  }

  lemma PrependLeast(e: WperfEvent, m: multiset<WperfEvent>, rest: seq<WperfEvent>)
    requires IsLeast(e, m) && Sorted(rest) && multiset(rest) == m - multiset{e}
    ensures Sorted([e] + rest) && multiset([e] + rest) == m
  {
    forall i | 0 <= i < |rest| ensures Le(e, rest[i]) {
      assert rest[i] in multiset(rest);
    }
  }

  ghost function Least(m: multiset<WperfEvent>): (e: WperfEvent)
    requires |m| > 0
    ensures IsLeast(e, m)
  {
    assert exists e :: IsLeast(e, m) by { var e := LeastExists(m); }
    var e :| IsLeast(e, m);
    e
  }

  /** The elements of `m` in ascending order. */
  ghost function Ascending(m: multiset<WperfEvent>): seq<WperfEvent>
    decreases |m|
  {
    if |m| == 0 then [] else [Least(m)] + Ascending(m - multiset{Least(m)})
  }

  lemma {:induction false} AscendingSorts(m: multiset<WperfEvent>)
    ensures Sorted(Ascending(m)) && multiset(Ascending(m)) == m
    decreases |m|
  {
    if |m| == 0 {
      assert m == multiset{};
    } else {
      var rest := m - multiset{Least(m)};
      AscendingSorts(rest);
      PrependLeast(Least(m), m, Ascending(rest));
    }
  }

  /** Sorting a whole trace. */
  ghost function SortEvents(es: seq<WperfEvent>): seq<WperfEvent> {
    Ascending(multiset(es))
  }

  ghost predicate InFieldOrder(es: seq<WperfEvent>) {
    forall i, j | 0 <= i < j < |es| :: NotAfter(es[i], es[j])
  }

  lemma SortedIsInFieldOrder(es: seq<WperfEvent>)
    ensures Sorted(es) <==> InFieldOrder(es)
  {
    forall i, j | 0 <= i < j < |es| ensures Le(es[i], es[j]) <==> NotAfter(es[i], es[j]) {
      LeMeaning(es[i], es[j]);
    }
  }

  /** Field by field, the sort of a multiset is its one arrangement in order. */
  lemma AscendingInFieldOrder(m: multiset<WperfEvent>, r: seq<WperfEvent>)
    ensures r == Ascending(m) <==> InFieldOrder(r) && multiset(r) == m
  {
    AscendingSorts(m);
    SortedIsInFieldOrder(r);
    SortedIsInFieldOrder(Ascending(m));
    if InFieldOrder(r) && multiset(r) == m {
      SortedUnique(r, Ascending(m));
    }
  }

  /** Sorting yields the one arrangement of the input in order of the fields. */
  lemma SortIsUnique(es: seq<WperfEvent>, r: seq<WperfEvent>)
    ensures r == SortEvents(es) <==> Sorted(r) && multiset(r) == multiset(es)
    ensures r == SortEvents(es) <==> InFieldOrder(r) && multiset(r) == multiset(es)
  {
    AscendingInFieldOrder(multiset(es), r);
    SortedIsInFieldOrder(r);
  }

  lemma SortEventsInFieldOrder(es: seq<WperfEvent>)
    ensures InFieldOrder(SortEvents(es)) && multiset(SortEvents(es)) == multiset(es)
  {
    SortIsUnique(es, SortEvents(es));
  }

  /** The result of sorting depends on nothing but which events there are. */
  lemma SortIgnoresOrder(a: seq<WperfEvent>, b: seq<WperfEvent>)
    ensures SortEvents(a) == SortEvents(b) <==> multiset(a) == multiset(b)
  {
    AscendingSorts(multiset(a));
    AscendingSorts(multiset(b));
  }
}
