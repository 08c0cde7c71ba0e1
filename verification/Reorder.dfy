/** The reorder buffer of the perfarray transport (src/transport/reorder.rs):
    a windowed min-heap, compared with sorting the whole input. */
module Reorder {
  import opened Collections
  import opened Events
  import opened EventOrder

  const DEFAULT_WINDOW_NS: u64 := 50_000_000

  // ---------- one buffer ----------

  datatype Buf = Buf(heap: multiset<WperfEvent>, newest: u64)

  function Later(newest: u64, e: WperfEvent): u64 {
    if e.timestampNs > newest then e.timestampNs else newest
  }

  /** The leading run of expired events. */
  ghost function ExpiredFront(s: seq<WperfEvent>, cutoff: nat): (r: seq<WperfEvent>)
    ensures |r| <= |s| && r == s[..|r|]
    ensures forall i | 0 <= i < |r| :: s[i].timestampNs <= cutoff
    ensures |r| < |s| ==> s[|r|].timestampNs > cutoff
  {
    if s == [] || s[0].timestampNs > cutoff then [] else [s[0]] + ExpiredFront(s[1..], cutoff)
  }

  /** What a flush with this cutoff hands to the callback. */
  ghost function Flushed(heap: multiset<WperfEvent>, cutoff: nat): seq<WperfEvent> {
    ExpiredFront(Ascending(heap), cutoff)
  }

  ghost function Emitted(b: Buf, e: WperfEvent, windowNs: u64): seq<WperfEvent> {
    Flushed(b.heap + multiset{e}, SatSub(Later(b.newest, e), windowNs))
  }

  ghost function Arrive(b: Buf, e: WperfEvent, windowNs: u64): Buf {
    Buf(b.heap + multiset{e} - multiset(Emitted(b, e, windowNs)), Later(b.newest, e))
  }

  lemma AscendingLeast(e: WperfEvent, heap: multiset<WperfEvent>)
    requires IsLeast(e, heap)
    ensures Ascending(heap) == [e] + Ascending(heap - multiset{e})
  {
    AscendingSorts(heap);
    AscendingSorts(heap - multiset{e});
    PrependLeast(e, heap, Ascending(heap - multiset{e}));
    SortedUnique(Ascending(heap), [e] + Ascending(heap - multiset{e}));
  }

  lemma FlushedLeast(e: WperfEvent, heap: multiset<WperfEvent>, cutoff: nat)
    requires IsLeast(e, heap)
    ensures Flushed(heap, cutoff)
         == if e.timestampNs <= cutoff then [e] + Flushed(heap - multiset{e}, cutoff) else []
  {
    AscendingLeast(e, heap);
    assert Ascending(heap)[1..] == Ascending(heap - multiset{e});
  }

  lemma FlushedInFieldOrder(heap: multiset<WperfEvent>, cutoff: nat)
    ensures InFieldOrder(Flushed(heap, cutoff))
  {
    AscendingInFieldOrder(heap, Ascending(heap));
    var front := Flushed(heap, cutoff);
    assert forall i | 0 <= i < |front| :: front[i] == Ascending(heap)[i];
  }

  lemma NothingExpired(heap: multiset<WperfEvent>, cutoff: nat, emitted: seq<WperfEvent>)
    requires |heap| == 0 || Flushed(heap, cutoff) == []
    ensures emitted + Flushed(heap, cutoff) == emitted
  {}

  lemma NothingLeft(heap: multiset<WperfEvent>, emitted: seq<WperfEvent>)
    requires |heap| == 0
    ensures heap == multiset{} && emitted + Ascending(heap) == emitted
  {}

  class ReorderBuf {
    var heap: multiset<WperfEvent>
    var newestTs: u64
    const windowNs: u64

    ghost function State(): Buf
      reads this
    {
      Buf(heap, newestTs)
    }

    constructor ()
      ensures State() == Buf(multiset{}, 0) && windowNs == 50_000_000
    {
      heap, newestTs, windowNs := multiset{}, 0, DEFAULT_WINDOW_NS;
    }

    constructor WithWindow(window: u64)
      ensures State() == Buf(multiset{}, 0) && windowNs == window
    {
      heap, newestTs, windowNs := multiset{}, 0, window;
    }

    /** Buffer an event, then flush whatever has left the window. The events
        handed to the callback are returned, with their number. */
    method Push(event: WperfEvent) returns (flushed: nat, emitted: seq<WperfEvent>)
      modifies this
      ensures State() == Arrive(old(State()), event, windowNs)
      ensures emitted == Emitted(old(State()), event, windowNs) && flushed == |emitted|
      ensures InFieldOrder(emitted)
    {
      if event.timestampNs > newestTs {
        newestTs := event.timestampNs;
      }
      heap := heap + multiset{event};
      assert Buf(heap, newestTs) == Buf(old(heap) + multiset{event}, Later(old(newestTs), event));
      flushed, emitted := FlushExpired();
      FlushedInFieldOrder(old(heap) + multiset{event}, SatSub(newestTs, windowNs));
    }

    method FlushExpired() returns (flushed: nat, emitted: seq<WperfEvent>)
      modifies this`heap
      ensures emitted == Flushed(old(heap), SatSub(newestTs, windowNs)) && flushed == |emitted|
      ensures heap == old(heap) - multiset(emitted)
    {
      var cutoff := SatSub(newestTs, windowNs);
      flushed, emitted := 0, [];
      while |heap| > 0
        invariant flushed == |emitted|
        invariant heap == old(heap) - multiset(emitted)
        invariant emitted + Flushed(heap, cutoff) == Flushed(old(heap), cutoff)
        decreases |heap|
      {
        var oldest := Peek();
        FlushedLeast(oldest, heap, cutoff);
        if oldest.timestampNs <= cutoff {
          Associative(emitted, [oldest], Flushed(heap - multiset{oldest}, cutoff));
          RemoveOneMore(old(heap), emitted, oldest);
          heap := heap - multiset{oldest};
          emitted := emitted + [oldest];
          flushed := flushed + 1;
        } else {
          break;
        }
      }
      NothingExpired(heap, cutoff, emitted);
    }

    method Peek() returns (oldest: WperfEvent)
      requires |heap| > 0
      ensures IsLeast(oldest, heap)
    {
      ghost var least := LeastExists(heap);
      oldest :| oldest in heap && forall x | x in heap :: Le(oldest, x);
    }

    /** Everything still buffered, in order; the buffer starts over. */
    method Drain() returns (drained: nat, emitted: seq<WperfEvent>)
      modifies this
      ensures State() == Buf(multiset{}, 0)
      ensures emitted == Ascending(old(heap)) && drained == |emitted|
      ensures InFieldOrder(emitted) && multiset(emitted) == old(heap)
    {
      drained, emitted := 0, [];
      while |heap| > 0
        invariant drained == |emitted|
        invariant emitted + Ascending(heap) == Ascending(old(heap))
        decreases |heap|
      {
        var event := Peek();
        AscendingLeast(event, heap);
        Associative(emitted, [event], Ascending(heap - multiset{event}));
        heap := heap - multiset{event};
        emitted := emitted + [event];
        drained := drained + 1;
      }
      NothingLeft(heap, emitted);
      AscendingInFieldOrder(old(heap), emitted);
      newestTs := 0;
    }
  }

  // ---------- whole sessions ----------

  datatype Session = Session(buf: Buf, out: seq<WperfEvent>)

  ghost function Pushes(es: seq<WperfEvent>, windowNs: u64): Session {
    if es == [] then Session(Buf(multiset{}, 0), [])
    else
      var s, e := Pushes(es[..|es| - 1], windowNs), es[|es| - 1];
      Session(Arrive(s.buf, e, windowNs), s.out + Emitted(s.buf, e, windowNs))
  }

  /** Everything a session hands on: the flushes, then the final drain. */
  ghost function Output(es: seq<WperfEvent>, windowNs: u64): seq<WperfEvent> {
    Pushes(es, windowNs).out + Ascending(Pushes(es, windowNs).buf.heap)
  }

  ghost function Newest(es: seq<WperfEvent>): u64 {
    if es == [] then 0 else Later(Newest(es[..|es| - 1]), es[|es| - 1])
  }

  lemma StayNewer(asc: seq<WperfEvent>, k: nat, cutoff: nat)
    requires Sorted(asc) && (k < |asc| ==> asc[k].timestampNs > cutoff)
    ensures forall i | k <= i < |asc| :: asc[i].timestampNs > cutoff
  {
    forall i | k < i < |asc| ensures asc[i].timestampNs > cutoff {
      assert Le(asc[k], asc[i]);
    }
  }

  /** A push splits the ascending buffer: its front is emitted, its back stays. */
  lemma ArriveSplits(b: Buf, e: WperfEvent, windowNs: u64) returns (asc: seq<WperfEvent>, k: nat)
    ensures k <= |asc| && Sorted(asc) && multiset(asc) == b.heap + multiset{e}
    ensures Emitted(b, e, windowNs) == asc[..k] && Arrive(b, e, windowNs).heap == multiset(asc[k..])
    ensures var cutoff := SatSub(Later(b.newest, e), windowNs);
            && (forall i | 0 <= i < k :: asc[i].timestampNs <= cutoff)
            && (forall i | k <= i < |asc| :: asc[i].timestampNs > cutoff)
  {
    asc := Ascending(b.heap + multiset{e});
    AscendingSorts(b.heap + multiset{e});
    k := |Emitted(b, e, windowNs)|;
    SplitAt(asc, k);
    StayNewer(asc, k, SatSub(Later(b.newest, e), windowNs));
  }

  /** No event is lost or invented. */
  lemma {:induction false} Conservation(es: seq<WperfEvent>, windowNs: u64)
    ensures var s := Pushes(es, windowNs);
            && multiset(s.out) + s.buf.heap == multiset(es)
            && multiset(Output(es, windowNs)) == multiset(es)
  {
    if es != [] {
      var init, e := es[..|es| - 1], es[|es| - 1];
      Conservation(init, windowNs);
      InitLast(es);
      Moved(Pushes(init, windowNs), e, windowNs);
    }
    Drained(Pushes(es, windowNs));
  }

  lemma Moved(s: Session, e: WperfEvent, windowNs: u64)
    ensures multiset(s.out + Emitted(s.buf, e, windowNs)) + Arrive(s.buf, e, windowNs).heap
         == multiset(s.out) + s.buf.heap + multiset{e}
  {
    var asc, k := ArriveSplits(s.buf, e, windowNs);
    SplitAt(asc, k);
  }

  lemma Drained(s: Session)
    ensures multiset(s.out + Ascending(s.buf.heap)) == multiset(s.out) + s.buf.heap
  {
    AscendingSorts(s.buf.heap);
  }

  /** Out is what is at or below the cutoff, buffered what is above it. */
  ghost predicate CutAtWindow(s: Session, windowNs: u64) {
    var cutoff := SatSub(s.buf.newest, windowNs);
    && (forall o | o in s.out :: o.timestampNs <= cutoff)
    && (forall x | x in s.buf.heap :: cutoff < x.timestampNs <= s.buf.newest)
  }

  lemma CutMoves(s: Session, e: WperfEvent, windowNs: u64)
    requires CutAtWindow(s, windowNs)
    ensures CutAtWindow(Session(Arrive(s.buf, e, windowNs), s.out + Emitted(s.buf, e, windowNs)), windowNs)
  {
    var asc, k := ArriveSplits(s.buf, e, windowNs);
    OutExpired(s.out, asc, k, SatSub(Later(s.buf.newest, e), windowNs));
    RestBuffered(s.buf.heap, e, asc, k, SatSub(Later(s.buf.newest, e), windowNs), s.buf.newest);
  }

  lemma OutExpired(out: seq<WperfEvent>, asc: seq<WperfEvent>, k: nat, cutoff: nat)
    requires k <= |asc| && (forall o | o in out :: o.timestampNs <= cutoff)
    requires forall i | 0 <= i < k :: asc[i].timestampNs <= cutoff
    ensures forall o | o in out + asc[..k] :: o.timestampNs <= cutoff
  {
    forall o | o in asc[..k] ensures o.timestampNs <= cutoff {
      var i :| 0 <= i < k && asc[i] == o;
    }
  }

  lemma RestBuffered(heap: multiset<WperfEvent>, e: WperfEvent, asc: seq<WperfEvent>, k: nat, cutoff: nat, newest: u64)
    requires k <= |asc| && multiset(asc) == heap + multiset{e}
    requires forall x | x in heap :: x.timestampNs <= newest
    requires forall i | k <= i < |asc| :: asc[i].timestampNs > cutoff
    ensures forall x | x in multiset(asc[k..]) :: cutoff < x.timestampNs <= Later(newest, e)
  {
    forall x | x in multiset(asc[k..]) ensures cutoff < x.timestampNs <= Later(newest, e) {
      var j :| k <= j < |asc| && asc[j] == x;
      assert x in multiset(asc);
    }
  }

  /** At every moment exactly the events at or below the cutoff are out. */
  lemma {:induction false} WindowIsExact(es: seq<WperfEvent>, windowNs: u64)
    ensures Pushes(es, windowNs).buf.newest == Newest(es)
    ensures CutAtWindow(Pushes(es, windowNs), windowNs)
  {
    if es != [] {
      WindowIsExact(es[..|es| - 1], windowNs);
      CutMoves(Pushes(es[..|es| - 1], windowNs), es[|es| - 1], windowNs);
    }
  }

  // ---------- against a plain sort ----------

  /** Two orders at once: full, or by timestamp only. */
  predicate InOrder(byTime: bool, a: WperfEvent, b: WperfEvent) {
    if byTime then a.timestampNs <= b.timestampNs else Le(a, b)
  }

  ghost predicate Ordered(byTime: bool, es: seq<WperfEvent>) {
    if byTime then TimeOrdered(es) else Sorted(es)
  }

  /** No arrival belongs before something the buffer has already handed on. */
  ghost predicate NoneLate(byTime: bool, es: seq<WperfEvent>, windowNs: u64) {
    forall i, o | 0 <= i < |es| && o in Pushes(es[..i], windowNs).out :: InOrder(byTime, o, es[i])
  }

  ghost predicate Separated(byTime: bool, out: seq<WperfEvent>, heap: multiset<WperfEvent>) {
    forall o, x | o in out && x in heap :: InOrder(byTime, o, x)
  }

  lemma ExtendsOrdered(byTime: bool, out: seq<WperfEvent>, asc: seq<WperfEvent>, k: nat)
    requires Ordered(byTime, out) && Sorted(asc) && k <= |asc|
    requires forall o, i | o in out && 0 <= i < |asc| :: InOrder(byTime, o, asc[i])
    ensures Ordered(byTime, out + asc[..k])
  {
    var all := out + asc[..k];
    forall i, j | 0 <= i < j < |all| ensures InOrder(byTime, all[i], all[j]) {
      if j >= |out| {
        assert all[j] == asc[j - |out|];
        if i < |out| {
          assert all[i] in out;
        } else {
          assert all[i] == asc[i - |out|] && Le(asc[i - |out|], asc[j - |out|]);
        }
      }
    }
  }

  /** Sorted events behind an ordered output that none of them precedes. */
  lemma Extends(byTime: bool, out: seq<WperfEvent>, asc: seq<WperfEvent>, k: nat)
    requires Ordered(byTime, out) && Sorted(asc) && k <= |asc| && Separated(byTime, out, multiset(asc))
    ensures Ordered(byTime, out + asc[..k]) && Separated(byTime, out + asc[..k], multiset(asc[k..]))
  {
    forall i | 0 <= i < |asc| ensures asc[i] in multiset(asc) {}
    ExtendsOrdered(byTime, out, asc, k);
    forall o, x | o in out + asc[..k] && x in multiset(asc[k..]) ensures InOrder(byTime, o, x) {
      var j :| k <= j < |asc| && x == asc[j];
      if o in asc[..k] {
        var i :| 0 <= i < k && o == asc[i];
        assert Le(asc[i], asc[j]);
      }
    }
  }

  lemma NoneLateBefore(byTime: bool, init: seq<WperfEvent>, e: WperfEvent, windowNs: u64)
    requires NoneLate(byTime, init + [e], windowNs)
    ensures NoneLate(byTime, init, windowNs)
    ensures forall o | o in Pushes(init, windowNs).out :: InOrder(byTime, o, e)
  {
    var es := init + [e];
    forall i | 0 <= i <= |init| ensures es[..i] == init[..i] {}
    assert init[..|init|] == init && es[|init|] == e;
    forall i, o | 0 <= i < |init| && o in Pushes(init[..i], windowNs).out ensures InOrder(byTime, o, init[i]) {
      assert o in Pushes(es[..i], windowNs).out && es[i] == init[i];
    }
  }

  lemma OrderMoves(byTime: bool, s: Session, e: WperfEvent, windowNs: u64)
    requires Ordered(byTime, s.out) && Separated(byTime, s.out, s.buf.heap)
    requires forall o | o in s.out :: InOrder(byTime, o, e)
    ensures var out := s.out + Emitted(s.buf, e, windowNs);
            Ordered(byTime, out) && Separated(byTime, out, Arrive(s.buf, e, windowNs).heap)
  {
    var asc, k := ArriveSplits(s.buf, e, windowNs);
    Extends(byTime, s.out, asc, k);
  }

  lemma {:induction false} OrderKept(byTime: bool, es: seq<WperfEvent>, windowNs: u64)
    requires NoneLate(byTime, es, windowNs)
    ensures var s := Pushes(es, windowNs);
            Ordered(byTime, s.out) && Separated(byTime, s.out, s.buf.heap)
  {
    if es != [] {
      var init, e := es[..|es| - 1], es[|es| - 1];
      InitLast(es);
      NoneLateBefore(byTime, init, e, windowNs);
      OrderKept(byTime, init, windowNs);
      OrderMoves(byTime, Pushes(init, windowNs), e, windowNs);
    }
  }

  /** What comes out after the first `i` arrivals holds every later one. */
  lemma {:induction false} OutputGrows(es: seq<WperfEvent>, windowNs: u64, i: nat)
    requires i <= |es|
    ensures Pushes(es[..i], windowNs).out <= Pushes(es, windowNs).out
  {
    if i == |es| {
      assert es[..i] == es;
    } else {
      assert es[..|es| - 1][..i] == es[..i];
      OutputGrows(es[..|es| - 1], windowNs, i);
    }
  }

  lemma LaterArrivalsFollow(es: seq<WperfEvent>, windowNs: u64, i: nat) returns (rest: seq<WperfEvent>)
    requires i < |es|
    ensures Output(es, windowNs) == Pushes(es[..i], windowNs).out + rest && es[i] in rest
  {
    var before := Pushes(es[..i], windowNs).out;
    OutputGrows(es, windowNs, i);
    rest := Output(es, windowNs)[|before|..];
    Conservation(es, windowNs);
    Conservation(es[..i], windowNs);
    OutputStarts(es, windowNs, before);
    Remainder(es, i, before, rest, Pushes(es[..i], windowNs).buf.heap);
  }

  lemma OutputStarts(es: seq<WperfEvent>, windowNs: u64, before: seq<WperfEvent>)
    requires before <= Pushes(es, windowNs).out
    ensures |before| <= |Output(es, windowNs)| && before + Output(es, windowNs)[|before|..] == Output(es, windowNs)
  {
    PrefixOfConcat(before, Pushes(es, windowNs).out, Ascending(Pushes(es, windowNs).buf.heap));
  }

  lemma PrefixOfConcat<T>(a: seq<T>, b: seq<T>, c: seq<T>)
    requires a <= b
    ensures a + (b + c)[|a|..] == b + c
  {}

  lemma Remainder(es: seq<WperfEvent>, i: nat, before: seq<WperfEvent>, rest: seq<WperfEvent>,
                  heap: multiset<WperfEvent>)
    requires i < |es| && multiset(before) + heap == multiset(es[..i])
    requires multiset(before + rest) == multiset(es)
    ensures es[i] in rest
  {
    SplitAt(es, i);
    var later := es[i..];
    assert later[0] == es[i];
    assert es[i] in multiset(later);
    assert multiset(before + rest) == multiset(before) + multiset(rest);
    Cancel(multiset(before), multiset(rest), heap, multiset(later));
    assert es[i] in multiset(rest);
  }

  /** The same in terms of what was handed on before each arrival. */
  lemma OrderedUnlessLate(byTime: bool, es: seq<WperfEvent>, windowNs: u64)
    ensures Ordered(byTime, Output(es, windowNs)) <==> NoneLate(byTime, es, windowNs)
  {
    if NoneLate(byTime, es, windowNs) {
      OrderKept(byTime, es, windowNs);
      var s := Pushes(es, windowNs);
      var asc := Ascending(s.buf.heap);
      AscendingSorts(s.buf.heap);
      Extends(byTime, s.out, asc, |asc|);
      assert asc[..|asc|] == asc;
    }
    if Ordered(byTime, Output(es, windowNs)) {
      forall i, o | 0 <= i < |es| && o in Pushes(es[..i], windowNs).out ensures InOrder(byTime, o, es[i]) {
        var rest := LaterArrivalsFollow(es, windowNs, i);
        Across(byTime, Pushes(es[..i], windowNs).out, rest, o, es[i]);
      }
    }
  }

  lemma Across(byTime: bool, before: seq<WperfEvent>, rest: seq<WperfEvent>, o: WperfEvent, x: WperfEvent)
    requires Ordered(byTime, before + rest) && o in before && x in rest
    ensures InOrder(byTime, o, x)
  {
    var a :| 0 <= a < |before| && before[a] == o;
    var b :| 0 <= b < |rest| && rest[b] == x;
    var all := before + rest;
    assert all[a] == o && all[|before| + b] == x;
  }

  /** What is out at any moment can be told from the arrivals. */
  lemma OutIsExpired(es: seq<WperfEvent>, windowNs: u64, o: WperfEvent)
    ensures o in Pushes(es, windowNs).out <==> o in es && o.timestampNs <= SatSub(Newest(es), windowNs)
  {
    WindowIsExact(es, windowNs);
    Conservation(es, windowNs);
    var s := Pushes(es, windowNs);
    assert o in es <==> o in multiset(s.out) + s.buf.heap;
  }

  /** A condition on the arrivals alone: none belongs before an earlier one that
      had left the window by the time it came. */
  ghost predicate Punctual(byTime: bool, es: seq<WperfEvent>, windowNs: u64) {
    forall i, j | 0 <= j < i < |es| && es[j].timestampNs <= SatSub(Newest(es[..i]), windowNs) ::
      InOrder(byTime, es[j], es[i])
  }

  lemma PunctualIsNoneLate(byTime: bool, es: seq<WperfEvent>, windowNs: u64)
    ensures Punctual(byTime, es, windowNs) <==> NoneLate(byTime, es, windowNs)
  {
    if Punctual(byTime, es, windowNs) {
      forall i, o | 0 <= i < |es| && o in Pushes(es[..i], windowNs).out ensures InOrder(byTime, o, es[i]) {
        OutIsExpired(es[..i], windowNs, o);
        var j :| 0 <= j < i && es[..i][j] == o;
        assert es[j] == o;
      }
    }
    if NoneLate(byTime, es, windowNs) {
      forall i, j | 0 <= j < i < |es| && es[j].timestampNs <= SatSub(Newest(es[..i]), windowNs)
        ensures InOrder(byTime, es[j], es[i])
      {
        assert es[..i][j] == es[j];
        OutIsExpired(es[..i], windowNs, es[j]);
      }
    }
  }

  /** The whole output is in order exactly when no arrival belonged before an
      earlier one that had already left the window. */
  lemma OrderedOutput(byTime: bool, es: seq<WperfEvent>, windowNs: u64)
    ensures Ordered(byTime, Output(es, windowNs)) <==> Punctual(byTime, es, windowNs)
  {
    OrderedUnlessLate(byTime, es, windowNs);
    PunctualIsNoneLate(byTime, es, windowNs);
  }

  /** Live reordering equals the offline sort exactly under that condition. */
  lemma AgreesWithSort(es: seq<WperfEvent>, windowNs: u64)
    ensures Output(es, windowNs) == SortEvents(es) <==> Punctual(false, es, windowNs)
  {
    OrderedOutput(false, es, windowNs);
    Conservation(es, windowNs);
    SortIsUnique(es, Output(es, windowNs));
  }

  /** Bounded lateness: arrivals at or above the cutoff of what came before keep
      timestamps in order, arrivals strictly above it reproduce the sort. */
  lemma BoundedLateness(es: seq<WperfEvent>, windowNs: u64)
    ensures (forall i | 0 <= i < |es| :: es[i].timestampNs >= SatSub(Newest(es[..i]), windowNs))
            ==> Ordered(true, Output(es, windowNs))
    ensures (forall i | 0 < i < |es| :: es[i].timestampNs > SatSub(Newest(es[..i]), windowNs))
            ==> Output(es, windowNs) == SortEvents(es)
  {
    OrderedOutput(true, es, windowNs);
    AgreesWithSort(es, windowNs);
  }

  // ---------- inputs that come out unsorted ----------

  const MAX_U64: u64 := 0xFFFF_FFFF_FFFF_FFFF

  function At(ts: u64, pid: u32): WperfEvent {
    WperfEvent(ts, pid, 0, 0, 0, 0, 0, 0, 0, 0, 0)
  }

  /** Two events of the same early moment leave at once, in arrival order,
      whatever the window. */
  lemma NoWindowSorts(windowNs: u64)
    ensures Output([At(0, 1), At(0, 0)], windowNs) != SortEvents([At(0, 1), At(0, 0)])
  {
    var es := [At(0, 1), At(0, 0)];
    AgreesWithSort(es, windowNs);
    assert Field(1, es[0]) > Field(1, es[1]);
  }

  /** The last of these arrivals comes after a later event has been handed on. */
  ghost function Straggler(windowNs: u64): seq<WperfEvent>
    requires windowNs < MAX_U64
  {
    [At(1, 0), At(windowNs + 1, 0), At(0, 0)]
  }

  lemma StragglerComesLate(windowNs: u64)
    requires windowNs < MAX_U64
    ensures !Ordered(true, Output(Straggler(windowNs), windowNs))
  {
    var es := Straggler(windowNs);
    OrderedOutput(true, es, windowNs);
    var early := es[..2];
    assert early[..1] == [At(1, 0)] && early[..1][..0] == [];
    assert Newest(early[..1]) == 1 && Newest(early) == windowNs + 1;
    assert es[0].timestampNs <= SatSub(Newest(es[..2]), windowNs);
  }

  /** Every window but the largest lets timestamps come out in disorder. */
  lemma SomeInputComesOutUnordered(windowNs: u64)
    ensures (exists es :: !Ordered(true, Output(es, windowNs))) <==> windowNs < MAX_U64
  {
    if windowNs < MAX_U64 {
      StragglerComesLate(windowNs);
    } else {
      forall es ensures Ordered(true, Output(es, windowNs)) {
        OrderedOutput(true, es, windowNs);
      }
    }
  }

  // ---------- the documented expiry rule ----------

  /** The leading run of events that the documentation calls expired: their age
      is at least the window. */
  ghost function AgedFront(s: seq<WperfEvent>, newest: u64, windowNs: u64): seq<WperfEvent> {
    if s == [] || newest - s[0].timestampNs < windowNs then []
    else [s[0]] + AgedFront(s[1..], newest, windowNs)
  }

  ghost function FlushedByAge(heap: multiset<WperfEvent>, newest: u64, windowNs: u64): seq<WperfEvent> {
    AgedFront(Ascending(heap), newest, windowNs)
  }

  lemma {:induction false} SameFront(s: seq<WperfEvent>, newest: u64, windowNs: u64)
    requires newest >= windowNs
    ensures AgedFront(s, newest, windowNs) == ExpiredFront(s, SatSub(newest, windowNs))
  {
    if s != [] {
      SameFront(s[1..], newest, windowNs);
    }
  }

  /** The two rules hand out the same exactly when the newest event is past the
      first window or nothing is buffered from timestamp 0. */
  lemma ExpiryRules(heap: multiset<WperfEvent>, newest: u64, windowNs: u64)
    requires forall x | x in heap :: x.timestampNs <= newest
    ensures FlushedByAge(heap, newest, windowNs) == Flushed(heap, SatSub(newest, windowNs))
       <==> newest >= windowNs || forall x | x in heap :: x.timestampNs != 0
  {
    if newest >= windowNs {
      SameFront(Ascending(heap), newest, windowNs);
    } else if |heap| > 0 {
      FirstIsEarliest(heap);
    } else {
      assert heap == multiset{};
    }
  }

  lemma FirstIsEarliest(heap: multiset<WperfEvent>)
    requires |heap| > 0
    ensures Ascending(heap) != [] && Ascending(heap)[0] in heap
    ensures forall x | x in heap :: Ascending(heap)[0].timestampNs <= x.timestampNs
  {
    assert IsLeast(Least(heap), heap);
    forall x | x in heap ensures Least(heap).timestampNs <= x.timestampNs {
      assert Le(Least(heap), x);
    }
  }

  /** Seen from the arrivals: a push departs from the documented rule exactly
      when it brings an event of timestamp 0 inside the first window. */
  lemma ExpiryOnPush(es: seq<WperfEvent>, e: WperfEvent, windowNs: u64)
    ensures FlushedByAge(Pushes(es, windowNs).buf.heap + multiset{e}, Newest(es + [e]), windowNs)
         == Emitted(Pushes(es, windowNs).buf, e, windowNs)
       <==> Newest(es + [e]) >= windowNs || e.timestampNs != 0
  {
    var b := Pushes(es, windowNs).buf;
    WindowIsExact(es, windowNs);
    assert (es + [e])[..|es|] == es;
    ExpiryRules(b.heap + multiset{e}, Later(b.newest, e), windowNs);
    assert e in b.heap + multiset{e};
  }

  /** A first event of timestamp 0 goes out at once, whatever the window; by the
      documented rule any window would keep it. */
  lemma TimeZeroGoesOutAtOnce(e: WperfEvent, windowNs: u64)
    requires e.timestampNs == 0
    ensures Emitted(Buf(multiset{}, 0), e, windowNs) == [e]
    ensures windowNs > 0 ==> FlushedByAge(multiset{e}, 0, windowNs) == []
  {
    LeTotal(e, e);
    AscendingLeast(e, multiset{e});
    assert Ascending(multiset{e} - multiset{e}) == [];
    assert multiset{} + multiset{e} == multiset{e};
  }
}
