/** The report of a trace (src/report.rs), and what holds from one end of the
    analysis to the other. */
module Reports {
  import opened Collections
  import opened Events
  import opened EventOrder
  import opened EventFormat
  import opened Bytes
  import opened Writer
  import opened Reader
  import opened CorrelateSpec
  import opened CorrelateBooks
  import opened CorrelateCounters
  import opened Attribution
  import opened EdgeOrder
  import opened GraphTypes
  import opened WaitGraph
  import CascadeEngine
  import opened ReportOrder
  import opened DiskReport
  import opened Knots
  import opened CriticalPath
  import opened GraphReport
  import opened GraphAnalysis
  import opened Pipeline
  import Reorder

  datatype ReportError = ReaderFailed(error: ReaderError) | CascadeFailed(violation: CascadeEngine.InvariantError)

  datatype Report = Report(
    cascaded: WaitForGraph,
    stats: PipelineStats,
    dropCount: Option<u64>,
    attributedDelayRatio: Option<map<IoLabel, Ratio>>,
    knots: seq<Knot>,
    criticalPath: Option<CriticalPath>)

  /** Depth levels of a report: the default limit. */
  const REPORT_LEVELS: Option<nat> := LevelsBelowEntry(CascadeEngine.DepthOrDefault(None))

  /** Total wait for the disk, over the edges as they are reported. */
  ghost function DiskWait(es: seq<Edge>): nat {
    if es == [] then 0
    else
      var e := es[|es| - 1];
      DiskWait(es[..|es| - 1]) + if e.dst == DISK_TID && e.weight.kind == Normal then e.weight.rawWaitMs else 0
  }

  /** The disk keeps all of its wait; without any there is no ratio. */
  ghost function DiskRatio(es: seq<Edge>): Option<map<IoLabel, Ratio>> {
    if DiskWait(es) == 0 then None else Some(map[Disk := Ratio(DiskWait(es), DiskWait(es))])
  }

  /** The disk is the only pseudo-thread of the graph. */
  ghost predicate OnlyDiskIsPseudo(rows: seq<Row>, kinds: map<ThreadId, NodeKind>) {
    && (forall r | r in rows :: r.edge.dst in kinds)
    && forall t | t in kinds :: kinds[t] == if t == DISK_TID then PseudoDisk else UserThread
  }

  lemma {:induction false} DiskWaitIsRawSum(rows: seq<Row>, kinds: map<ThreadId, NodeKind>)
    requires OnlyDiskIsPseudo(rows, kinds)
    ensures RawSum(rows, kinds, Disk) == DiskWait(Strip(rows))
  {
    if rows != [] {
      var init, last := rows[..|rows| - 1], rows[|rows| - 1];
      assert last in rows && forall r | r in init :: r in rows;
      DiskWaitIsRawSum(init, kinds);
      assert Strip(rows)[..|rows| - 1] == Strip(init);
      assert CountsFor(last.edge, kinds, Disk) <==> last.edge.dst == DISK_TID && last.edge.weight.kind == Normal;
    }
  }

  lemma CascadedNodes(h: seq<WperfEvent>, thresholdNs: nat, order: seq<u32>)
    ensures var m := Correlate(h, thresholdNs, order);
            OnlyDiskIsPseudo(StableSort(Rows(Redistribute(m.edges, REPORT_LEVELS))), m.kinds)
  {
    var m := Correlate(h, thresholdNs, order);
    var rs := Redistribute(m.edges, REPORT_LEVELS);
    GraphIsWellBuilt(h, thresholdNs, order);
    SortedRowsAreTheEdges(rs);
    forall r | r in StableSort(Rows(rs)) ensures r.edge.dst in m.kinds {
      assert r.edge == rs[r.index] && m.edges[r.index] in m.edges;
    }
  }

  /** The computed ratio is the one the reported edges determine. */
  lemma RatioIsDiskRatio(h: seq<WperfEvent>, thresholdNs: nat, order: seq<u32>, rows: seq<Row>,
                         kinds: map<ThreadId, NodeKind>, r: Option<map<IoLabel, Ratio>>)
    requires rows == StableSort(Rows(Redistribute(Correlate(h, thresholdNs, order).edges, REPORT_LEVELS)))
    requires kinds == Correlate(h, thresholdNs, order).kinds
    requires r.None? <==> forall l :: RawSum(rows, kinds, l) == 0
    requires r.Some? ==> forall l ::
               && (l in r.value <==> RawSum(rows, kinds, l) > 0)
               && (l in r.value ==> r.value[l] == Ratio(AttributedSum(rows, kinds, l), RawSum(rows, kinds, l)))
    ensures r == DiskRatio(Strip(rows))
  {
    CascadedNodes(h, thresholdNs, order);
    DiskWaitIsRawSum(rows, kinds);
    forall l ensures l != Disk ==> RawSum(rows, kinds, l) == 0 {
      DiskRatioIsOne(h, thresholdNs, order, REPORT_LEVELS, l);
    }
    DiskRatioIsOne(h, thresholdNs, order, REPORT_LEVELS, Disk);
    if r.Some? {
      assert r.value == map[Disk := Ratio(DiskWait(Strip(rows)), DiskWait(Strip(rows)))];
    }
  }

  /** What a report shows of a trace, whatever order the leftover table was
      drained in: cascaded edges, statistics and ratio. */
  ghost predicate Shows(rows: seq<Edge>, stats: CorrelationStats, ratio: Option<map<IoLabel, Ratio>>,
                        read: seq<WperfEvent>, thresholdNs: nat)
  {
    && ratio == DiskRatio(rows)
    && forall order | Enumerates(order, Run(SortEvents(read), thresholdNs).pending.Keys) ::
         var m := Correlate(SortEvents(read), thresholdNs, order);
         rows == Reported(Redistribute(m.edges, REPORT_LEVELS)) && stats == m.stats
  }

  ghost function Ends(es: seq<Edge>): set<ThreadId> {
    (set e | e in es :: e.src) + (set e | e in es :: e.dst)
  }

  /** The threads at the ends of `es`: all are user threads but the disk. */
  ghost function KindsOf(es: seq<Edge>): map<ThreadId, NodeKind> {
    map t | t in Ends(es) :: if t == DISK_TID then PseudoDisk else UserThread
  }

  /** The knots and the critical path are those of the reported edges. */
  ghost predicate ShowsGraph(rows: seq<Edge>, knots: seq<Knot>, cp: Option<CriticalPath>) {
    && ShowsKnots(rows, KindsOf(rows), knots)
    && (cp.None? <==> rows == [])
    && (cp.Some? ==> ShowsCritical(rows, KindsOf(rows).Keys, cp.value))
  }

  lemma KindsAreThoseOfEdges(es: seq<Edge>, kinds: map<ThreadId, NodeKind>)
    requires NodesMatch(es, kinds)
    ensures kinds == KindsOf(es)
  {
    forall t ensures t in kinds <==> t in KindsOf(es) {
      if t in kinds {
        assert Touched(es, t);
      }
    }
  }

  lemma ReportedEdges(es: seq<Edge>)
    ensures SameEdges(es, Reported(es)) && |Reported(es)| == |es| && KindsOf(Reported(es)) == KindsOf(es)
  {
    var rows := StableSort(Rows(es));
    StableSortCorrect(Rows(es));
    SortedRowsAreTheEdges(es);
    assert |rows| == |multiset(rows)| == |multiset(Rows(es))| == |es|;
    forall e ensures e in es <==> e in Reported(es) {
      if e in es {
        var i :| 0 <= i < |es| && es[i] == e;
        assert Row(i, e) in rows;
        var k :| 0 <= k < |rows| && rows[k] == Row(i, e);
        assert Reported(es)[k] == e;
      }
      if e in Reported(es) {
        var k :| 0 <= k < |rows| && rows[k].edge == e;
        assert rows[k] in rows;
      }
    }
  }

  /** What holds of the cascaded graph holds of its edges as reported. */
  lemma GraphIsShown(es: seq<Edge>, kinds: map<ThreadId, NodeKind>, knots: seq<Knot>, cp: Option<CriticalPath>)
    requires CorrelatedShape(es, kinds) && ShowsKnots(es, kinds, knots)
    requires cp.None? <==> kinds == map[]
    requires cp.Some? ==> ShowsCritical(es, kinds.Keys, cp.value)
    ensures ShowsGraph(Reported(es), knots, cp)
  {
    ReportedEdges(es);
    KindsAreThoseOfEdges(es, kinds);
    KnotsCarryOver(es, Reported(es), kinds, knots);
    if cp.Some? {
      CriticalCarriesOver(es, Reported(es), kinds.Keys, cp.value);
    }
    NoEdgesNoThreads(es, kinds);
  }

  lemma NoEdgesNoThreads(es: seq<Edge>, kinds: map<ThreadId, NodeKind>)
    requires NodesMatch(es, kinds)
    ensures es == [] <==> kinds == map[]
  {
    if es != [] {
      assert es[0] in es;
    }
    if kinds != map[] {
      var t := Pick(kinds.Keys);
      assert Touched(es, t);
    }
  }

  /** There is always a drain order to speak of. */
  lemma DrainOrderExists(keys: set<u32>)
    ensures exists order :: Enumerates(order, keys)
  {
    var ids := SortedSeq(keys);
    SortedSeqLists(keys);
    assert forall i | 0 <= i < |ids| :: ids[i] in keys;
    var order: seq<u32> := ids;
    assert Enumerates(order, keys);
  }

  lemma AnyDrainOrder(rows: seq<Edge>, stats: CorrelationStats, ratio: Option<map<IoLabel, Ratio>>,
                      read: seq<WperfEvent>, thresholdNs: nat, order: seq<u32>)
    requires Enumerates(order, Run(SortEvents(read), thresholdNs).pending.Keys)
    requires var m := Correlate(SortEvents(read), thresholdNs, order);
             rows == Reported(Redistribute(m.edges, REPORT_LEVELS)) && stats == m.stats
    requires ratio == DiskRatio(rows)
    ensures Shows(rows, stats, ratio, read, thresholdNs)
  {
    var h := SortEvents(read);
    forall other | Enumerates(other, Run(h, thresholdNs).pending.Keys)
      ensures rows == Reported(Redistribute(Correlate(h, thresholdNs, other).edges, REPORT_LEVELS))
      ensures stats == Correlate(h, thresholdNs, other).stats
    {
      DrainOrderIsInvisible(h, thresholdNs, order, other, REPORT_LEVELS);
      StatsIgnoreDrainOrder(h, thresholdNs, order, other);
    }
  }

  /** The report of a trace does not depend on the order of the events in the file. */
  lemma FileOrderIsInvisible(rows: seq<Edge>, stats: CorrelationStats, ratio: Option<map<IoLabel, Ratio>>,
                             a: seq<WperfEvent>, b: seq<WperfEvent>, thresholdNs: nat)
    requires multiset(a) == multiset(b)
    ensures Shows(rows, stats, ratio, a, thresholdNs) <==> Shows(rows, stats, ratio, b, thresholdNs)
  {
    SortIgnoresOrder(a, b);
  }

  /** The events of a file determine what is reported: two reports of the same
      events, in whatever order, show the same. */
  lemma ReportIsDetermined(rows: seq<Edge>, stats: CorrelationStats, ratio: Option<map<IoLabel, Ratio>>,
                           otherRows: seq<Edge>, otherStats: CorrelationStats,
                           otherRatio: Option<map<IoLabel, Ratio>>,
                           a: seq<WperfEvent>, b: seq<WperfEvent>, thresholdNs: nat)
    requires multiset(a) == multiset(b)
    requires Shows(rows, stats, ratio, a, thresholdNs) && Shows(otherRows, otherStats, otherRatio, b, thresholdNs)
    ensures rows == otherRows && stats == otherStats && ratio == otherRatio
  {
    FileOrderIsInvisible(otherRows, otherStats, otherRatio, a, b, thresholdNs);
    DrainOrderExists(Run(SortEvents(a), thresholdNs).pending.Keys);
  }

  /** Then their knots are the same too, and their critical paths weigh the same. */
  lemma GraphPartIsDetermined(rows: seq<Edge>, knots: seq<Knot>, cp: Option<CriticalPath>,
                              otherKnots: seq<Knot>, otherCp: Option<CriticalPath>)
    requires ShowsGraph(rows, knots, cp) && ShowsGraph(rows, otherKnots, otherCp)
    ensures |knots| == |otherKnots| && forall members :: Listed(knots, members) <==> Listed(otherKnots, members)
    ensures cp.Some? <==> otherCp.Some?
    ensures cp.Some? ==> cp.value.totalWeight == otherCp.value.totalWeight
  {
    KnotsAreDetermined(rows, KindsOf(rows), knots, otherKnots);
    if cp.Some? {
      CriticalTotalIsDetermined(rows, KindsOf(rows).Keys, cp.value, otherCp.value);
    }
  }

  /** What `BuildReport` promises for the events `read` from a file with those
      counts: everything in the report is fixed by the events alone. */
  ghost predicate ReportOf(r: Result<Report, ReportError>, read: Result<seq<WperfEvent>, ReaderError>,
                           metadata: Result<Metadata, ReaderError>, thresholdNs: nat)
    reads if r.Ok? then {r.value.cascaded} else {}
  {
    && (read.Err? ==> r == Err(ReaderFailed(read.error)))
    && (read.Ok? && metadata.Err? ==> r == Err(ReaderFailed(metadata.error)))
    && (read.Ok? && metadata.Ok? ==>
          && r.Ok? && r.value.cascaded.Valid()
          && r.value.dropCount == metadata.value.dropCount
          && r.value.stats.eventsRead == |read.value|
          && Shows(Reported(r.value.cascaded.Edges()), r.value.stats.correlation,
                   r.value.attributedDelayRatio, read.value, thresholdNs)
          && ShowsGraph(Reported(r.value.cascaded.Edges()), r.value.knots, r.value.criticalPath))
  }

  /** The report never fails on a readable trace; its edges, statistics, ratio,
      knots and critical path weight are fixed by the events alone, and the disk
      keeps all of its wait. */
  method BuildReport(reader: WperfReader, thresholdNs: nat, lib: GraphLibrary)
    returns (r: Result<Report, ReportError>)
    requires reader.Valid() && Sound(lib)
    modifies reader.inner`pos
    ensures ReportOf(r, ReadFrom(reader.inner.data, old(reader.inner.pos), reader.dataEnd),
                     MetadataOf(reader.inner.data, reader.header.sectionTableOffset), thresholdNs)
  {
    var wfg, order := BuildWaitForGraph(reader, thresholdNs);
    if wfg.Err? {
      return Err(ReaderFailed(wfg.error));
    }
    var (graph, stats) := wfg.value;
    var metadata := reader.ReadMetadata();
    if metadata.Err? {
      return Err(ReaderFailed(metadata.error));
    }
    ghost var read := ReadFrom(reader.inner.data, old(reader.inner.pos), reader.dataEnd).value;
    var cascaded, ratio, knots, cp := Analyse(graph, stats, lib, read, thresholdNs, order);
    return Ok(Report(cascaded, stats, metadata.value.dropCount, ratio, knots, cp));
  }

  /** From the wait-for graph on. */
  method Analyse(graph: WaitForGraph, stats: PipelineStats, lib: GraphLibrary,
                 ghost read: seq<WperfEvent>, thresholdNs: nat, ghost order: seq<u32>)
    returns (cascaded: WaitForGraph, ratio: Option<map<IoLabel, Ratio>>, knots: seq<Knot>, cp: Option<CriticalPath>)
    requires graph.Valid() && Sound(lib)
    requires Enumerates(order, Run(SortEvents(read), thresholdNs).pending.Keys)
    requires var m := Correlate(SortEvents(read), thresholdNs, order);
             graph.Edges() == m.edges && graph.Kinds() == m.kinds && stats.correlation == m.stats
    ensures cascaded.Valid()
    ensures Shows(Reported(cascaded.Edges()), stats.correlation, ratio, read, thresholdNs)
    ensures ShowsGraph(Reported(cascaded.Edges()), knots, cp)
  {
    var run := CascadeEngine.RunCascade(graph, None);
    cascaded := run.value;
    ratio := ComputeIoAttributedDelayRatio(cascaded);
    ghost var rows, kinds := cascaded.AllEdges(), cascaded.Kinds();
    assert rows == StableSort(Rows(Redistribute(graph.Edges(), REPORT_LEVELS)));
    RatioIsDiskRatio(SortEvents(read), thresholdNs, order, rows, kinds, ratio);
    AnyDrainOrder(Strip(rows), stats.correlation, ratio, read, thresholdNs, order);
    knots, cp := AnalyseGraph(cascaded, lib);
    CorrelatedGraphShape(SortEvents(read), thresholdNs, order, REPORT_LEVELS);
    GraphIsShown(cascaded.Edges(), cascaded.Kinds(), knots, cp);
  }

  // ---------- from a file to its report ----------

  /** What the reader gets out of a file. */
  ghost function TraceOf(data: seq<u8>): Result<seq<WperfEvent>, ReaderError> {
    match HeaderOf(data)
    case Err(error) => Err(error)
    case Ok(h) => ReadFrom(data, HEADER_SIZE, Min(h.dataSectionEndOffset, |data|))
  }

  ghost function CountsOf(data: seq<u8>): Result<Metadata, ReaderError> {
    match HeaderOf(data)
    case Err(error) => Err(error)
    case Ok(h) => MetadataOf(data, h.sectionTableOffset)
  }

  /** The command: open the file, then build its report. */
  method RunReport(stream: ByteStream, thresholdUs: u32, lib: GraphLibrary) returns (r: Result<Report, ReportError>)
    requires Sound(lib)
    modifies stream`pos
    ensures ReportOf(r, TraceOf(stream.data), CountsOf(stream.data), thresholdUs * 1000)
  {
    var reader := Open(stream);
    if reader.Err? {
      return Err(ReaderFailed(reader.error));
    }
    r := BuildReport(reader.value, thresholdUs * 1000, lib);
  }

  /** Two reports show the same everywhere but in the drop counts, which are
      those of their files. */
  ghost predicate SameReports(a: Result<Report, ReportError>, b: Result<Report, ReportError>,
                              ma: Metadata, mb: Metadata)
    reads if a.Ok? then {a.value.cascaded} else {}, if b.Ok? then {b.value.cascaded} else {}
  {
    && a.Ok? && b.Ok? && a.value.dropCount == ma.dropCount && b.value.dropCount == mb.dropCount
    && SameFindings(a.value, b.value)
  }

  ghost predicate SameFindings(a: Report, b: Report)
    reads a.cascaded, b.cascaded
  {
    && a.cascaded.Valid() && b.cascaded.Valid()
    && Reported(a.cascaded.Edges()) == Reported(b.cascaded.Edges()) && a.stats == b.stats
    && a.attributedDelayRatio == b.attributedDelayRatio
    && |a.knots| == |b.knots| && (forall members :: Listed(a.knots, members) <==> Listed(b.knots, members))
    && (a.criticalPath.Some? <==> b.criticalPath.Some?)
    && (a.criticalPath.Some? ==> a.criticalPath.value.totalWeight == b.criticalPath.value.totalWeight)
  }

  /** Two reports of the same events are the same, whatever the order of the
      events in the file, the drain order and the numbering of components. */
  lemma SameEventsSameReport(a: Result<Report, ReportError>, b: Result<Report, ReportError>,
                             x: seq<WperfEvent>, y: seq<WperfEvent>, ma: Metadata, mb: Metadata, thresholdNs: nat)
    requires ReportOf(a, Ok(x), Ok(ma), thresholdNs) && ReportOf(b, Ok(y), Ok(mb), thresholdNs)
    requires multiset(x) == multiset(y)
    ensures SameReports(a, b, ma, mb)
  {
    assert |x| == |multiset(x)| == |multiset(y)| == |y|;
    var rows := Reported(a.value.cascaded.Edges());
    ReportIsDetermined(rows, a.value.stats.correlation, a.value.attributedDelayRatio,
                       Reported(b.value.cascaded.Edges()), b.value.stats.correlation,
                       b.value.attributedDelayRatio, x, y, thresholdNs);
    GraphPartIsDetermined(rows, a.value.knots, a.value.criticalPath, b.value.knots, b.value.criticalPath);
  }

  /** Events of a recording of `size` events, cut at `cut`, that can be recovered. */
  function Recovered(size: nat, cut: nat): (n: nat)
    requires cut >= HEADER_SIZE
    ensures n <= size
  {
    Min(size - size % BOOKMARK_INTERVAL, (cut - HEADER_SIZE) / RECORD_SIZE)
  }

  lemma CutTrace(hostArch: u8, es: seq<WperfEvent>, cut: nat)
    requires HEADER_SIZE <= cut <= |OpenFile(hostArch, es)| && DataEnd(|es|) + 45 < 0x1_0000_0000_0000_0000
    ensures TraceOf(OpenFile(hostArch, es)[..cut]) == Ok(es[..Recovered(|es|, cut)])
    ensures CountsOf(OpenFile(hostArch, es)[..cut]) == Ok(Metadata(None, None))
  {
    CrashRecovery(hostArch, es, cut);
  }

  lemma FinishedTrace(hostArch: u8, es: seq<WperfEvent>, n: u64, dropCount: u64)
    requires n == |es| && DataEnd(n) + 45 < 0x1_0000_0000_0000_0000
    ensures TraceOf(FinishedFile(hostArch, es, dropCount)) == Ok(es)
    ensures CountsOf(FinishedFile(hostArch, es, dropCount)) == Ok(Metadata(Some(n), Some(dropCount)))
  {
    FinishedRoundTrip(hostArch, es, dropCount);
    WholeMetadata(hostArch, es, n, dropCount);
  }

  /** Two readable files with the same events have the same report. */
  lemma SameEventsInFiles(a: Result<Report, ReportError>, b: Result<Report, ReportError>,
                          first: seq<u8>, second: seq<u8>, thresholdNs: nat)
    requires ReportOf(a, TraceOf(first), CountsOf(first), thresholdNs)
    requires ReportOf(b, TraceOf(second), CountsOf(second), thresholdNs)
    requires TraceOf(first).Ok? && CountsOf(first).Ok? && TraceOf(second).Ok? && CountsOf(second).Ok?
    requires multiset(TraceOf(first).value) == multiset(TraceOf(second).value)
    ensures SameReports(a, b, CountsOf(first).value, CountsOf(second).value)
  {
    SameEventsSameReport(a, b, TraceOf(first).value, TraceOf(second).value,
                         CountsOf(first).value, CountsOf(second).value, thresholdNs);
  }

  lemma EndsEarlier(n: nat, m: nat)
    requires n <= m
    ensures DataEnd(n) <= DataEnd(m)
  {}

  lemma CutFilesAgree(hostArch: u8, es: seq<WperfEvent>, cut: nat, kept: seq<WperfEvent>, n: u64, dropCount: u64)
    requires HEADER_SIZE <= cut <= |OpenFile(hostArch, es)| && DataEnd(|es|) + 45 < 0x1_0000_0000_0000_0000
    requires n == Recovered(|es|, cut) && kept == es[..n]
    ensures TraceOf(OpenFile(hostArch, es)[..cut]) == Ok(kept) == TraceOf(FinishedFile(hostArch, kept, dropCount))
    ensures CountsOf(OpenFile(hostArch, es)[..cut]) == Ok(Metadata(None, None))
    ensures CountsOf(FinishedFile(hostArch, kept, dropCount)) == Ok(Metadata(Some(n), Some(dropCount)))
  {
    CutTrace(hostArch, es, cut);
    EndsEarlier(n, |es|);
    FinishedTrace(hostArch, kept, n, dropCount);
  }

  /** A recording that was cut short reports exactly what a finished recording of
      the recovered events would, except that it has no drop count. */
  lemma CutRecordingReport(hostArch: u8, es: seq<WperfEvent>, cut: nat, n: u64, dropCount: u64, thresholdNs: nat,
                           short: seq<u8>, whole: seq<u8>,
                           a: Result<Report, ReportError>, b: Result<Report, ReportError>)
    requires HEADER_SIZE <= cut <= |OpenFile(hostArch, es)| && DataEnd(|es|) + 45 < 0x1_0000_0000_0000_0000
    requires n == Recovered(|es|, cut)
    requires short == OpenFile(hostArch, es)[..cut] && whole == FinishedFile(hostArch, es[..n], dropCount)
    requires ReportOf(a, TraceOf(short), CountsOf(short), thresholdNs)
    requires ReportOf(b, TraceOf(whole), CountsOf(whole), thresholdNs)
    ensures SameReports(a, b, Metadata(None, None), Metadata(Some(n), Some(dropCount)))
  {
    CutFilesAgree(hostArch, es, cut, es[..n], n, dropCount);
    SameEventsInFiles(a, b, short, whole, thresholdNs);
  }

  /** Recording through the reorder buffer, whatever its window and however late
      the arrivals, cannot be told from recording directly. */
  lemma ReorderingIsInvisible(hostArch: u8, es: seq<WperfEvent>, n: u64, windowNs: u64, dropCount: u64,
                              thresholdNs: nat, direct: seq<u8>, reordered: seq<u8>,
                              a: Result<Report, ReportError>, b: Result<Report, ReportError>)
    requires n == |es| && DataEnd(n) + 45 < 0x1_0000_0000_0000_0000
    requires direct == FinishedFile(hostArch, es, dropCount)
    requires reordered == FinishedFile(hostArch, Reorder.Output(es, windowNs), dropCount)
    requires ReportOf(a, TraceOf(direct), CountsOf(direct), thresholdNs)
    requires ReportOf(b, TraceOf(reordered), CountsOf(reordered), thresholdNs)
    ensures SameReports(a, b, Metadata(Some(n), Some(dropCount)), Metadata(Some(n), Some(dropCount)))
  {
    ReorderedFileAgrees(hostArch, es, Reorder.Output(es, windowNs), n, windowNs, dropCount);
    SameEventsInFiles(a, b, direct, reordered, thresholdNs);
  }

  lemma ReorderedFileAgrees(hostArch: u8, es: seq<WperfEvent>, out: seq<WperfEvent>, n: u64, windowNs: u64,
                            dropCount: u64)
    requires n == |es| && DataEnd(n) + 45 < 0x1_0000_0000_0000_0000 && out == Reorder.Output(es, windowNs)
    ensures TraceOf(FinishedFile(hostArch, es, dropCount)) == Ok(es)
    ensures CountsOf(FinishedFile(hostArch, es, dropCount)) == Ok(Metadata(Some(n), Some(dropCount)))
    ensures TraceOf(FinishedFile(hostArch, out, dropCount)) == Ok(out) && multiset(out) == multiset(es)
    ensures CountsOf(FinishedFile(hostArch, out, dropCount)) == Ok(Metadata(Some(n), Some(dropCount)))
  {
    Reorder.Conservation(es, windowNs);
    assert |out| == |multiset(out)| == |multiset(es)| == |es|;
    FinishedTrace(hostArch, es, n, dropCount);
    FinishedTrace(hostArch, out, n, dropCount);
  }
}
