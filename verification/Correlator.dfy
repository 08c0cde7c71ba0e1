/** The event loop of `correlate_events` with its four tables, the graph under
    construction and the counters (src/correlate.rs). */
module Correlator {
  import opened Collections
  import opened GraphTypes
  import opened Events
  import opened CorrelateSpec
  import opened WaitGraph

  /** The locals that `correlate_events` lends to its handlers. */
  class Correlation {
    var offCpu: map<u32, OffCpuRecord>
    var futex: map<u32, PendingFutex>
    var pending: map<u32, PendingEdge>
    var io: map<IoKey, PendingIo>
    var graph: WaitForGraph
    var stats: CorrelationStats

    ghost predicate Valid()
      reads this, graph
    {
      graph.Valid()
    }

    ghost function Model(): Machine
      requires Valid()
      reads this, graph
    {
      Machine(offCpu, futex, pending, io, graph.Edges(), graph.Kinds(), stats)
    }

    constructor ()
      ensures Valid() && fresh(graph)
      ensures Model() == INITIAL
    {
      offCpu, futex, pending, io, stats := map[], map[], map[], map[], NO_STATS;
      graph := new WaitForGraph();
    }

    /** The nodes and the edge of `add_edge_from_pending`. */
    method AddSchedulerEdge(pe: PendingEdge)
      requires Valid()
      modifies graph
      ensures Valid()
      ensures graph.Edges() == old(graph.Edges()) + [SchedulerEdge(pe)]
      ensures graph.Kinds() == WithNode(WithNode(old(graph.Kinds()), pe.src, UserThread), pe.dst, UserThread)
    {
      var _ := graph.AddNode(pe.src, UserThread);
      var _ := graph.AddNode(pe.dst, UserThread);
      if pe.waitType.Some? {
        var _ := graph.AddEdgeWithWaitType(pe.src, pe.dst, pe.window, pe.waitType.value);
      } else {
        var _ := graph.AddEdge(pe.src, pe.dst, pe.window);
      }
    }

    method AddEdgeFromPending(pe: PendingEdge)
      requires Valid()
      modifies this`stats, graph
      ensures Valid()
      ensures Model() == Commit(old(Model()), pe)
    {
      AddSchedulerEdge(pe);
      stats := stats.(edgesCreated := stats.edgesCreated + 1);
    }

    method CommitPendingEdge(tid: u32)
      requires Valid()
      modifies this`pending, this`stats, graph
      ensures Valid()
      ensures Model() == CommitPending(old(Model()), tid)
    {
      if tid in pending {
        var pe := pending[tid];
        pending := pending - {tid};
        AddEdgeFromPending(pe);
      }
    }

    method ResolvePrevThread(e: WperfEvent, thresholdNs: nat)
      requires Valid()
      modifies this`pending, this`stats, graph
      ensures Valid()
      ensures Model() == ResolvePrev(old(Model()), e, thresholdNs)
    {
      if e.prevTid != 0 && e.prevTid in pending {
        var pe := pending[e.prevTid];
        var onCpuNs := SatSub(e.timestampNs, pe.switchInNs);
        if e.prevState != TASK_RUNNING && onCpuNs < thresholdNs {
          pending := pending - {e.prevTid};
          stats := stats.(falseWakeupFiltered := stats.falseWakeupFiltered + 1);
        } else {
          CommitPendingEdge(e.prevTid);
        }
      }
    }

    method SwitchPrevOut(e: WperfEvent)
      requires Valid()
      modifies this`futex, this`offCpu
      ensures Valid()
      ensures Model() == SwitchOut(old(Model()), e)
    {
      if e.prevState != TASK_RUNNING && e.prevTid != 0 {
        var waitType := None;
        if e.prevTid in futex {
          var pf := futex[e.prevTid];
          futex := futex - {e.prevTid};
          if SatSub(e.timestampNs, pf.timestampNs) <= FUTEX_CORRELATION_WINDOW_NS {
            waitType := Some(pf.waitType);
          }
        }
        offCpu := offCpu[e.prevTid := OffCpuRecord(e.timestampNs, None, waitType)];
        assert e.prevTid !in old(futex) ==> futex == old(futex) - {e.prevTid};
      }
    }

    method SwitchNextIn(e: WperfEvent)
      requires Valid()
      modifies this`offCpu, this`pending, this`stats
      ensures Valid()
      ensures Model() == SwitchIn(old(Model()), e)
    {
      if e.nextTid == 0 {
        return;
      }
      if e.nextTid in offCpu {
        var record := offCpu[e.nextTid];
        offCpu := offCpu - {e.nextTid};
        if record.wakerTid.Some? {
          var src, dst := ThreadId(e.nextTid), ThreadId(record.wakerTid.value);
          var startMs := record.switchOutNs / NS_PER_MS;
          var waitNs := SatSub(e.timestampNs, record.switchOutNs);
          var window := Span(startMs, startMs + waitNs / NS_PER_MS);
          pending := pending[e.nextTid := PendingEdge(e.timestampNs, src, dst, window, record.waitType)];
        } else {
          stats := stats.(switchInWithoutWaker := stats.switchInWithoutWaker + 1);
        }
      } else {
        stats := stats.(unmatchedSwitchIn := stats.unmatchedSwitchIn + 1);
      }
    }

    method OnSwitch(e: WperfEvent, thresholdNs: nat)
      requires Valid()
      modifies this`offCpu, this`futex, this`pending, this`stats, graph
      ensures Valid()
      ensures Model() == HandleSwitch(old(Model()), e, thresholdNs)
    {
      ResolvePrevThread(e, thresholdNs);
      SwitchPrevOut(e);
      SwitchNextIn(e);
    }

    method OnWakeup(e: WperfEvent)
      requires Valid()
      modifies this`offCpu, this`stats
      ensures Valid()
      ensures Model() == HandleWakeup(old(Model()), e)
    {
      var target, source := e.nextTid, e.prevTid;
      if source == 0 {
        return;
      }
      if target in offCpu {
        offCpu := offCpu[target := offCpu[target].(wakerTid := Some(source))];
      } else {
        stats := stats.(unmatchedWakeup := stats.unmatchedWakeup + 1);
      }
    }

    method OnExit(e: WperfEvent)
      requires Valid()
      modifies this`offCpu, this`futex, this`pending, this`stats, graph
      ensures Valid()
      ensures Model() == HandleExit(old(Model()), e)
    {
      CommitPendingEdge(e.tid);
      offCpu := offCpu - {e.tid};
      futex := futex - {e.tid};
    }

    method OnFutexWait(e: WperfEvent)
      requires Valid()
      modifies this`futex
      ensures Valid()
      ensures Model() == HandleFutexWait(old(Model()), e)
    {
      futex := futex[e.tid := PendingFutex(e.timestampNs, FutexWaitType(e.FutexOp()))];
    }

    method OnIoIssue(e: WperfEvent)
      requires Valid()
      modifies this`io, this`stats
      ensures Valid()
      ensures Model() == HandleIoIssue(old(Model()), e)
    {
      var collision := KeyOf(e) in io;
      io := io[KeyOf(e) := PendingIo(e.pid, e.tid, e.timestampNs)];
      if collision {
        stats := stats.(ioPairCollision := stats.ioPairCollision + 1);
      }
    }

    /** The two nodes and two edges of a completed request. */
    method AddDiskPair(user: ThreadId, window: TimeWindow)
      requires Valid()
      modifies graph
      ensures Valid()
      ensures graph.Edges() == old(graph.Edges())
                + [Edge(user, DISK_TID, NewWeight(window, Some(IoBlock), Normal)),
                   Edge(DISK_TID, user, NewWeight(window, Some(IoBlock), SyntheticClosureReturn))]
      ensures graph.Kinds() == WithNode(WithNode(old(graph.Kinds()), user, UserThread), DISK_TID, PseudoDisk)
    {
      var _ := graph.AddNode(user, UserThread);
      var _ := graph.AddNode(DISK_TID, PseudoDisk);
      var _ := graph.AddEdgeWithWaitType(user, DISK_TID, window, IoBlock);
      var _ := graph.AddSyntheticClosureReturn(DISK_TID, user, window, IoBlock);
    }

    method OnIoComplete(e: WperfEvent)
      requires Valid()
      modifies this`io, this`stats, graph
      ensures Valid()
      ensures Model() == HandleIoComplete(old(Model()), e)
    {
      if KeyOf(e) !in io {
        stats := stats.(ioOrphanComplete := stats.ioOrphanComplete + 1);
        return;
      }
      var issued := io[KeyOf(e)];
      io := io - {KeyOf(e)};
      var window := ServiceWindow(issued.issueTsNs, e.timestampNs);
      AddDiskPair(ThreadId(issued.submitterTid), window);
      stats := stats.(edgesCreated := stats.edgesCreated + 2);
    }

    method DispatchEvent(e: WperfEvent, thresholdNs: nat)
      requires Valid()
      modifies this`offCpu, this`futex, this`pending, this`io, this`stats, graph
      ensures Valid()
      ensures Model() == Dispatch(old(Model()), e, thresholdNs)
    {
      match e.Kind()
      case Some(Switch) => OnSwitch(e, thresholdNs);
      case Some(Wakeup) => OnWakeup(e);
      case Some(WakeupNew) => OnWakeup(e);
      case Some(Exit) => OnExit(e);
      case Some(FutexWait) => OnFutexWait(e);
      case Some(IoIssue) => OnIoIssue(e);
      case Some(IoComplete) => OnIoComplete(e);
      case None => stats := stats.(unknownEventType := stats.unknownEventType + 1);
    }

    method Process(e: WperfEvent, thresholdNs: nat)
      requires Valid()
      modifies this`offCpu, this`futex, this`pending, this`io, this`stats, graph
      ensures Valid()
      ensures Model() == Step(old(Model()), e, thresholdNs)
    {
      stats := stats.(eventsProcessed := stats.eventsProcessed + 1);
      assert Model() == Count(old(Model()));
      DispatchEvent(e, thresholdNs);
    }

    /** Commit every leftover pending edge, in whatever order the table yields. */
    method DrainPending() returns (ghost order: seq<u32>)
      requires Valid()
      modifies this`pending, this`stats, graph
      ensures Valid()
      ensures Enumerates(order, old(pending).Keys)
      ensures Model() == Drain(old(Model()), order)
    {
      ghost var before := Model();
      order := [];
      while pending.Keys != {}
        invariant Valid() && Model() == Drain(before, order)
        invariant pending.Keys == before.pending.Keys - (set t | t in order)
        invariant forall t | t in order :: t in before.pending
        invariant forall i, j | 0 <= i < j < |order| :: order[i] != order[j]
        decreases pending.Keys
      {
        var tid := AnyKey(pending);
        CommitPendingEdge(tid);
        order := order + [tid];
        assert order[..|order| - 1] + [tid] == order;
      }
      forall t | t in before.pending.Keys ensures t in order {
        assert t !in pending.Keys;
      }
    }
  }

  method AnyKey(m: map<u32, PendingEdge>) returns (t: u32)
    requires m.Keys != {}
    ensures t in m
  {
    assert exists k :: k in m.Keys by {
      var k := Pick(m.Keys);
    }
    t :| t in m.Keys;
  }

  /** Correlate a whole event stream. `order` is the order in which the
      leftover table happened to be drained. */
  method CorrelateEvents(events: seq<WperfEvent>, thresholdNs: nat)
    returns (graph: WaitForGraph, stats: CorrelationStats, ghost order: seq<u32>)
    ensures fresh(graph) && graph.Valid()
    ensures Enumerates(order, Run(events, thresholdNs).pending.Keys)
    ensures var m := CorrelateSpec.Correlate(events, thresholdNs, order);
            graph.Edges() == m.edges && graph.Kinds() == m.kinds && stats == m.stats
  {
    var c := new Correlation();
    for i := 0 to |events|
      invariant fresh(c) && fresh(c.graph) && c.Valid()
      invariant c.Model() == Run(events[..i], thresholdNs)
    {
      assert events[..i + 1][..i] == events[..i];
      c.Process(events[i], thresholdNs);
    }
    assert events[..|events|] == events;
    order := c.DrainPending();
    c.stats := c.stats.(ioPendingAtEnd := |c.io|);
    graph, stats := c.graph, c.stats;
  }
}
