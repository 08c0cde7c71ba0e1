/** Per-device attribution ratios (src/report.rs) and what they are for every
    graph that correlation produces. */
module DiskReport {
  import opened Collections
  import opened GraphTypes
  import opened Events
  import opened CorrelateSpec
  import opened CorrelateBooks
  import opened Attribution
  import opened EdgeOrder
  import opened WaitGraph

  datatype IoLabel = Disk | Nic | Softirq

  /** A ratio kept as its two exact sums. */
  datatype Ratio = Ratio(attributedMs: nat, rawMs: nat)

  function LabelOf(kind: NodeKind): Option<IoLabel> {
    match kind
    case PseudoDisk => Some(Disk)
    case PseudoNic => Some(Nic)
    case PseudoSoftirq => Some(Softirq)
    case _ => None
  }

  /** Edges counted for `device`: into such a device, and not a closure return. */
  predicate CountsFor(e: Edge, kinds: map<ThreadId, NodeKind>, device: IoLabel) {
    e.dst in kinds && LabelOf(kinds[e.dst]) == Some(device) && e.weight.kind != SyntheticClosureReturn
  }

  ghost function RawSum(rows: seq<Row>, kinds: map<ThreadId, NodeKind>, device: IoLabel): nat {
    if rows == [] then 0
    else
      var e := rows[|rows| - 1].edge;
      RawSum(rows[..|rows| - 1], kinds, device) + if CountsFor(e, kinds, device) then e.weight.rawWaitMs else 0
  }

  ghost function AttributedSum(rows: seq<Row>, kinds: map<ThreadId, NodeKind>, device: IoLabel): nat {
    if rows == [] then 0
    else
      var e := rows[|rows| - 1].edge;
      AttributedSum(rows[..|rows| - 1], kinds, device)
      + if CountsFor(e, kinds, device) then e.weight.attributedDelayMs else 0
  }

  /** The edge enters a device of that label and is a real wait. */
  predicate Enters(e: Edge, kinds: map<ThreadId, NodeKind>, device: IoLabel) {
    && e.weight.kind == Normal && e.dst in kinds
    && (kinds[e.dst] == PseudoDisk <==> device == Disk) && (kinds[e.dst] == PseudoNic <==> device == Nic)
    && (kinds[e.dst] == PseudoSoftirq <==> device == Softirq)
  }

  /** The two sums add up the raw waits and the attributed delays of the edges that
      enter the device, and of no others. */
  lemma SumsAddUp(rows: seq<Row>, r: Row, kinds: map<ThreadId, NodeKind>, device: IoLabel)
    ensures RawSum([], kinds, device) == 0 && AttributedSum([], kinds, device) == 0
    ensures RawSum(rows + [r], kinds, device)
         == RawSum(rows, kinds, device) + if Enters(r.edge, kinds, device) then r.edge.weight.rawWaitMs else 0
    ensures AttributedSum(rows + [r], kinds, device)
         == AttributedSum(rows, kinds, device)
            + if Enters(r.edge, kinds, device) then r.edge.weight.attributedDelayMs else 0
  {
    assert (rows + [r])[..|rows|] == rows;
  }

  function GetOrZero(m: map<IoLabel, nat>, device: IoLabel): nat {
    if device in m then m[device] else 0
  }

  /** One pass over the edges into two accumulators, then one ratio per device
      with measurable wait; no ratio at all when there is none. */
  method ComputeIoAttributedDelayRatio(cascaded: WaitForGraph) returns (r: Option<map<IoLabel, Ratio>>)
    requires cascaded.Valid()
    ensures var rows, kinds := cascaded.AllEdges(), cascaded.Kinds();
            && (r.None? <==> forall l :: RawSum(rows, kinds, l) == 0)
            && (r.Some? ==> forall l ::
                  && (l in r.value <==> RawSum(rows, kinds, l) > 0)
                  && (l in r.value ==>
                        r.value[l] == Ratio(AttributedSum(rows, kinds, l), RawSum(rows, kinds, l))))
  {
    var rows := cascaded.AllEdges();
    var perRaw, perAttributed := Accumulate(cascaded, rows);
    var labels := [Disk, Nic, Softirq];
    var result: map<IoLabel, Ratio> := map[];
    for i := 0 to |labels|
      invariant forall l :: l in result <==> l in labels[..i] && GetOrZero(perRaw, l) != 0
      invariant forall l | l in result :: result[l] == Ratio(GetOrZero(perAttributed, l), perRaw[l])
    {
      assert labels[..i + 1] == labels[..i] + [labels[i]];
      if labels[i] in perRaw && perRaw[labels[i]] != 0 {
        result := result[labels[i] := Ratio(GetOrZero(perAttributed, labels[i]), perRaw[labels[i]])];
      }
    }
    assert labels[..|labels|] == labels;
    forall l: IoLabel ensures l in labels {
      match l
      case Disk => assert labels[0] == l;
      case Nic => assert labels[1] == l;
      case Softirq => assert labels[2] == l;
    }
    if result.Keys == {} {
      return None;
    }
    ghost var counted := Pick(result.Keys);
    assert RawSum(cascaded.AllEdges(), cascaded.Kinds(), counted) > 0;
    return Some(result);
  }

  method Accumulate(graph: WaitForGraph, rows: seq<Row>)
    returns (perRaw: map<IoLabel, nat>, perAttributed: map<IoLabel, nat>)
    requires graph.Valid()
    ensures forall l :: GetOrZero(perRaw, l) == RawSum(rows, graph.Kinds(), l)
    ensures forall l :: GetOrZero(perAttributed, l) == AttributedSum(rows, graph.Kinds(), l)
  {
    ghost var kinds := graph.Kinds();
    perRaw, perAttributed := map[], map[];
    for i := 0 to |rows|
      invariant forall l :: GetOrZero(perRaw, l) == RawSum(rows[..i], kinds, l)
      invariant forall l :: GetOrZero(perAttributed, l) == AttributedSum(rows[..i], kinds, l)
    {
      assert rows[..i + 1][..i] == rows[..i];
      var e := rows[i].edge;
      var index := graph.NodeIndex(e.dst);
      if index.Some? {
        var device := LabelOf(graph.nodes[index.value].kind);
        if device.Some? && e.weight.kind != SyntheticClosureReturn {
          perRaw := perRaw[device.value := GetOrZero(perRaw, device.value) + e.weight.rawWaitMs];
          perAttributed :=
            perAttributed[device.value := GetOrZero(perAttributed, device.value) + e.weight.attributedDelayMs];
        }
      }
    }
    assert rows[..|rows|] == rows;
  }

  // ---------- disk attribution, end to end ----------

  /** Of any correlated graph: the disk forwards nothing, so an edge into it
      keeps all of its wait through redistribution. */
  lemma DiskKeepsItsWait(h: seq<WperfEvent>, thresholdNs: nat, order: seq<u32>, left: Option<nat>, i: nat)
    requires i < |Correlate(h, thresholdNs, order).edges|
    requires Correlate(h, thresholdNs, order).edges[i].dst == DISK_TID
    ensures var r := Redistribute(Correlate(h, thresholdNs, order).edges, left)[i];
            r.weight.attributedDelayMs == r.weight.rawWaitMs
  {
    GraphIsWellBuilt(h, thresholdNs, order);
    LeafKeepsEverything(Correlate(h, thresholdNs, order).edges, left, i);
  }

  lemma {:induction false} EqualSums(rows: seq<Row>, kinds: map<ThreadId, NodeKind>, device: IoLabel)
    requires forall r | r in rows && CountsFor(r.edge, kinds, device) ::
               r.edge.weight.attributedDelayMs == r.edge.weight.rawWaitMs
    ensures AttributedSum(rows, kinds, device) == RawSum(rows, kinds, device)
  {
    if rows != [] {
      assert rows[|rows| - 1] in rows;
      EqualSums(rows[..|rows| - 1], kinds, device);
    }
  }

  lemma {:induction false} NothingCounted(rows: seq<Row>, kinds: map<ThreadId, NodeKind>, device: IoLabel)
    requires forall t | t in kinds :: LabelOf(kinds[t]) != Some(device)
    ensures RawSum(rows, kinds, device) == 0
  {
    if rows != [] {
      NothingCounted(rows[..|rows| - 1], kinds, device);
    }
  }

  /** After correlation and redistribution of any event stream, everything the
      disk was waited for is attributed to the disk, and no other device exists. */
  lemma DiskRatioIsOne(h: seq<WperfEvent>, thresholdNs: nat, order: seq<u32>, left: Option<nat>, device: IoLabel)
    ensures var m := Correlate(h, thresholdNs, order);
            var rows := StableSort(Rows(Redistribute(m.edges, left)));
            && AttributedSum(rows, m.kinds, device) == RawSum(rows, m.kinds, device)
            && (device != Disk ==> RawSum(rows, m.kinds, device) == 0)
  {
    var m := Correlate(h, thresholdNs, order);
    GraphIsWellBuilt(h, thresholdNs, order);
    if device != Disk {
      NothingCounted(StableSort(Rows(Redistribute(m.edges, left))), m.kinds, device);
    }
    DiskRowsKeep(h, thresholdNs, order, left, device);
    EqualSums(StableSort(Rows(Redistribute(m.edges, left))), m.kinds, device);
  }

  lemma DiskRowsKeep(h: seq<WperfEvent>, thresholdNs: nat, order: seq<u32>, left: Option<nat>, device: IoLabel)
    ensures var m := Correlate(h, thresholdNs, order);
            forall r | r in StableSort(Rows(Redistribute(m.edges, left))) && CountsFor(r.edge, m.kinds, device) ::
              r.edge.weight.attributedDelayMs == r.edge.weight.rawWaitMs
  {
    var m := Correlate(h, thresholdNs, order);
    var rs := Redistribute(m.edges, left);
    GraphIsWellBuilt(h, thresholdNs, order);
    SortedRowsAreTheEdges(rs);
    forall r | r in StableSort(Rows(rs)) && CountsFor(r.edge, m.kinds, device)
      ensures r.edge.weight.attributedDelayMs == r.edge.weight.rawWaitMs
    {
      assert r.edge == rs[r.index] && r.edge.dst == m.edges[r.index].dst;
      assert r.edge.dst == DISK_TID;
      DiskKeepsItsWait(h, thresholdNs, order, left, r.index);
    }
  }
}
