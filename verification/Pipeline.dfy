/** The analysis pipeline from trace file to wait-for graph (src/pipeline.rs). */
module Pipeline {
  import opened Collections
  import opened Events
  import opened EventOrder
  import opened EventFormat
  import opened Writer
  import opened Reader
  import Reorder
  import opened CorrelateSpec
  import Correlator
  import opened WaitGraph

  datatype PipelineStats = PipelineStats(eventsRead: nat, correlation: CorrelationStats)

  lemma TakeLeast(sorted: seq<WperfEvent>, rest: multiset<WperfEvent>, e: WperfEvent, target: seq<WperfEvent>)
    requires IsLeast(e, rest) && sorted + EventOrder.Ascending(rest) == target
    ensures (sorted + [e]) + EventOrder.Ascending(rest - multiset{e}) == target
  {
    Reorder.AscendingLeast(e, rest);
    Associative(sorted, [e], EventOrder.Ascending(rest - multiset{e}));
  }

  /** `sort_unstable`: some in-place sort; only its result is specified. */
  method SortUnstable(events: seq<WperfEvent>) returns (sorted: seq<WperfEvent>)
    ensures sorted == SortEvents(events)
    ensures InFieldOrder(sorted) && multiset(sorted) == multiset(events)
  {
    var rest := multiset(events);
    sorted := [];
    while |rest| > 0
      invariant sorted + EventOrder.Ascending(rest) == SortEvents(events)
      decreases |rest|
    {
      ghost var least := LeastExists(rest);
      var e :| e in rest && forall x | x in rest :: Le(e, x);
      TakeLeast(sorted, rest, e, SortEvents(events));
      rest := rest - multiset{e};
      sorted := sorted + [e];
    }
    Reorder.NothingLeft(rest, sorted);
    SortEventsInFieldOrder(events);
  }

  /** Read, sort and correlate. */
  method BuildWaitForGraph(reader: WperfReader, thresholdNs: nat)
    returns (r: Result<(WaitForGraph, PipelineStats), ReaderError>, ghost order: seq<u32>)
    requires reader.Valid()
    modifies reader.inner`pos
    ensures var read := ReadFrom(reader.inner.data, old(reader.inner.pos), reader.dataEnd);
            && (read.Err? ==> r == Err(read.error))
            && (read.Ok? ==>
                  var m := Correlate(SortEvents(read.value), thresholdNs, order);
                  && Enumerates(order, Run(SortEvents(read.value), thresholdNs).pending.Keys)
                  && r.Ok? && fresh(r.value.0) && r.value.0.Valid()
                  && r.value.0.Edges() == m.edges && r.value.0.Kinds() == m.kinds
                  && r.value.1 == PipelineStats(|read.value|, m.stats))
  {
    order := [];
    var read := reader.ReadAllEvents();
    match read {
      case Err(error) => r := Err(error);
      case Ok(events) =>
        var sorted := SortUnstable(events);
        var graph, stats;
        graph, stats, order := Correlator.CorrelateEvents(sorted, thresholdNs);
        r := Ok((graph, PipelineStats(|events|, stats)));
    }
  }

  // ---------- from the recorder's callback to the report ----------

  /** The sort hands correlation a time-ordered trace, as its window bounds need. */
  lemma SortedByTime(es: seq<WperfEvent>)
    ensures TimeOrdered(SortEvents(es))
  {
    AscendingSorts(multiset(es));
    var s := SortEvents(es);
    forall i, j | 0 <= i < j < |s| ensures s[i].timestampNs <= s[j].timestampNs {
      assert Le(s[i], s[j]);
    }
  }

  /** Events recorded through the reorder buffer, however late, into a finished
      file: the file reads back with its counts, and what correlation gets to see
      is the sorted trace. */
  lemma RecordedTrace(hostArch: u8, es: seq<WperfEvent>, n: u64, windowNs: u64, dropCount: u64)
    requires n == |es| && DataEnd(n) + 45 < 0x1_0000_0000_0000_0000
    ensures var written := Reorder.Output(es, windowNs);
            var data := FinishedFile(hostArch, written, dropCount);
            var h := FinishedHeader(hostArch, n);
            && HeaderOf(data) == Ok(h)
            && ReadFrom(data, HEADER_SIZE, Min(DataEnd(n), |data|)) == Ok(written)
            && MetadataOf(data, h.sectionTableOffset) == Ok(Metadata(Some(n), Some(dropCount)))
            && SortEvents(written) == SortEvents(es)
  {
    var written := Reorder.Output(es, windowNs);
    Reorder.Conservation(es, windowNs);
    assert |multiset(written)| == |multiset(es)|;
    assert |written| == |es|;
    SortIgnoresOrder(written, es);
    FinishedRoundTrip(hostArch, written, dropCount);
    WholeMetadata(hostArch, written, n, dropCount);
  }

  lemma WholeMetadata(hostArch: u8, written: seq<WperfEvent>, n: u64, dropCount: u64)
    requires n == |written| && DataEnd(n) + 45 < 0x1_0000_0000_0000_0000
    ensures MetadataOf(FinishedFile(hostArch, written, dropCount), FinishedHeader(hostArch, n).sectionTableOffset)
         == Ok(Metadata(Some(n), Some(dropCount)))
  {
    var file := FinishedFile(hostArch, written, dropCount);
    FooterPlaced(hostArch, written, dropCount);
    WholePrefix(file);
    MetadataUnderTruncation(hostArch, written, n, dropCount, |file|);
  }
}
