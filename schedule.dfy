/** The whole CPM computation of the script, from the activity records to
    the schedule: estimates, graph, topological order, the two passes, the
    critical activities and the project total. */
module Scheduling {
  import opened Seqs
  import opened Activities
  import opened PrecedenceGraph
  import opened Results
  import opened TopologicalOrder
  import opened CriticalPath
  import opened ScheduleProperties

  /** Everything the CPM section computes. */
  datatype Plan = Plan(nodes: seq<Name>, edges: seq<Edge>, duration: map<Name, real>,
                       order: seq<Name>,
                       es: map<Name, real>, ef: map<Name, real>,
                       ls: map<Name, real>, lf: map<Name, real>,
                       critical: seq<Name>, flags: map<Name, bool>, total: real)

  /** Every record's estimates are ordered and start at 0 or later. */
  predicate SensibleEstimates(store: Store) {
    forall a | a in store.records ::
      0.0 <= store.records[a].optimistic <= store.records[a].mostLikely <= store.records[a].pessimistic
  }

  /** Lines 35-88: the schedule of a set of activity records. It fails with
      CycleFound exactly when the precedences admit no order, and with
      EmptyGraph exactly when there are no activities. */
  method Schedule(store: Store) returns (r: Result<Plan>)
    requires store.Valid()
    ensures r.Err? && r.error == EmptyGraph <==> store.order == []
    ensures r.Err? && r.error == CycleFound ==>
      forall t :: !IsTopologicalOrder(t, NodesAfter([], store.order, store.records), EdgesAfter([], store.order, store.records))
    ensures r.Ok? ==> var p := r.value;
      && p.nodes == NodesAfter([], store.order, store.records)
      && p.edges == EdgesAfter([], store.order, store.records)
      && IsTopologicalOrder(p.order, p.nodes, p.edges)
      && (forall n :: n in p.nodes ==>
            n in p.duration && p.duration[n] == (if n in store.records then EstimateOf(store.records[n]).te else 0.0))
      && EarliestTimes(p.nodes, p.edges, p.duration, p.es, p.ef)
      && (forall v :: v in p.nodes ==> p.ef[v] <= p.total)
      && (exists v :: v in p.nodes && p.total == p.ef[v])
      && LatestTimes(p.nodes, p.edges, p.duration, p.total, p.ls, p.lf)
      && (forall v :: v in p.critical <==> v in p.nodes && p.es[v] == p.ls[v])
      && (forall v :: v in p.flags <==> v in p.nodes)
      && (forall v :: v in p.flags ==> (p.flags[v] <==> v in p.critical))
      && (SensibleEstimates(store) ==> p.critical != [])
      && (SensibleEstimates(store) ==> exists s :: s in p.nodes && SuccList(p.edges, s) == [] && p.total == p.ef[s])
  {
    var est := ComputeEstimates(store);
    var g := BuildGraph(store, est);
    GraphNodeSet(store);
    var nodes, edges, dur := g.nodes, g.edges, g.duration;
    var sorted := TopologicalSort(nodes, edges);
    if sorted.Err? {
      if store.order == [] {
        assert nodes == [] by {
          assert forall n :: n !in nodes;
        }
        assert IsTopologicalOrder([], nodes, edges);
        assert false;
      }
      return Err(CycleFound);
    }
    var topo := sorted.value;
    var es, ef := ForwardPass(nodes, edges, dur, topo);
    var ls, lf := BackwardPass(nodes, edges, dur, topo, ef);
    var critical := CriticalNodes(nodes, es, ls);
    var flags := CriticalFlags(nodes, es, ls);
    var total := TotalDuration(topo, ef);
    if total.Err? {
      if store.order != [] {
        assert false;
      }
      return Err(EmptyGraph);
    }
    assert store.order != [] by {
      assert topo[0] in nodes;
    }
    if SensibleEstimates(store) {
      forall v | v in nodes ensures v in dur && dur[v] >= 0.0 {
        if v in store.records {
          var a := store.records[v];
          assert dur[v] == ExpectedTime(a.optimistic, a.mostLikely, a.pessimistic);
        }
      }
      CriticalPathExists(topo, nodes, edges, dur, es, ef, ls, lf);
      var sink := TotalIsSinkFinish(topo, nodes, edges, dur, es, ef);
    }
    r := Ok(Plan(nodes, edges, dur, topo, es, ef, ls, lf, critical, flags, total.value));
  }
}
