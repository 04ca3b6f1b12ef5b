/** What the CPM passes guarantee about a schedule: the times are fixed by
    the graph, starts are never negative, no activity has negative slack,
    and a non-empty project has a critical activity. */
module ScheduleProperties {
  import opened Seqs
  import opened Activities
  import opened PrecedenceGraph
  import opened Results
  import opened TopologicalOrder
  import opened CriticalPath

  /** Every node has a duration, and none is negative. */
  predicate NonNegativeDurations(nodes: seq<Name>, dur: map<Name, real>) {
    forall v | v in nodes :: v in dur && dur[v] >= 0.0
  }

  /** In a topological order every predecessor of a node comes before it
      and every successor after it: when the forward pass reaches a node
      its predecessors all have finish times, and when the backward pass
      reaches it its successors all have start times, so neither `.get`
      default is ever taken. */
  lemma NeighboursAreOrdered(topo: seq<Name>, nodes: seq<Name>, edges: seq<Edge>, i: nat)
    requires IsTopologicalOrder(topo, nodes, edges) && EdgesWithin(nodes, edges)
    requires i < |topo|
    ensures forall u :: u in PredList(edges, topo[i]) ==> u in topo[..i]
    ensures forall w :: w in SuccList(edges, topo[i]) ==> w in topo[i + 1..]
  {
    forall u | u in PredList(edges, topo[i]) ensures u in topo[..i] {
      assert (u, topo[i]).0 in nodes;
      var j :| 0 <= j < |topo| && topo[j] == u;
      assert j < i;
      assert topo[..i][j] == u;
    }
    forall w | w in SuccList(edges, topo[i]) ensures w in topo[i + 1..] {
      assert (topo[i], w).1 in nodes;
      var j :| 0 <= j < |topo| && topo[j] == w;
      assert i < j;
      assert topo[i + 1..][j - i - 1] == w;
    }
  }

  /** The position of a node in a topological order. */
  lemma PositionOf(topo: seq<Name>, nodes: seq<Name>, edges: seq<Edge>, v: Name) returns (k: nat)
    requires IsTopologicalOrder(topo, nodes, edges)
    requires v in nodes
    ensures k < |topo| && topo[k] == v
  {
    k :| 0 <= k < |topo| && topo[k] == v;
  }

  /** With non-negative durations, the node at position k of a topological
      order starts at 0 or later and finishes no earlier than it starts. */
  lemma {:induction false} StartNonNegativeAt(topo: seq<Name>, nodes: seq<Name>, edges: seq<Edge>, dur: map<Name, real>,
                                              es: map<Name, real>, ef: map<Name, real>, k: nat)
    requires EdgesWithin(nodes, edges) && IsTopologicalOrder(topo, nodes, edges)
    requires NonNegativeDurations(nodes, dur)
    requires EarliestTimes(nodes, edges, dur, es, ef)
    requires k < |topo|
    ensures es[topo[k]] >= 0.0 && ef[topo[k]] >= es[topo[k]]
    decreases k
  {
    var v := topo[k];
    assert v in nodes;
    assert IsEarliestStart(edges, ef, v, es[v]);
    if PredList(edges, v) != [] {
      var u :| u in PredList(edges, v) && u in ef && es[v] == ef[u];
      assert (u, v).0 in nodes;
      var j := PositionOf(topo, nodes, edges, u);
      assert (topo[j], topo[k]) in edges;
      StartNonNegativeAt(topo, nodes, edges, dur, es, ef, j);
    }
  }

  /** ES >= 0 and EF >= ES for every node when no duration is negative. */
  lemma EarliestNonNegative(topo: seq<Name>, nodes: seq<Name>, edges: seq<Edge>, dur: map<Name, real>,
                            es: map<Name, real>, ef: map<Name, real>)
    requires EdgesWithin(nodes, edges) && IsTopologicalOrder(topo, nodes, edges)
    requires NonNegativeDurations(nodes, dur)
    requires EarliestTimes(nodes, edges, dur, es, ef)
    ensures forall v :: v in nodes ==> es[v] >= 0.0 && ef[v] >= es[v]
  {
    forall v | v in nodes ensures es[v] >= 0.0 && ef[v] >= es[v] {
      var k := PositionOf(topo, nodes, edges, v);
      StartNonNegativeAt(topo, nodes, edges, dur, es, ef, k);
    }
  }

  /** For a total no smaller than any earliest finish, the node at position
      k finishes at its latest finish or earlier. */
  lemma {:induction false} FinishSlackAt(topo: seq<Name>, nodes: seq<Name>, edges: seq<Edge>, dur: map<Name, real>,
                                         es: map<Name, real>, ef: map<Name, real>, total: real,
                                         ls: map<Name, real>, lf: map<Name, real>, k: nat)
    requires EdgesWithin(nodes, edges) && IsTopologicalOrder(topo, nodes, edges)
    requires EarliestTimes(nodes, edges, dur, es, ef)
    requires LatestTimes(nodes, edges, dur, total, ls, lf)
    requires forall v :: v in ef ==> ef[v] <= total
    requires k < |topo|
    ensures ef[topo[k]] <= lf[topo[k]]
    decreases |topo| - k
  {
    var v := topo[k];
    assert v in nodes;
    assert IsLatestFinish(edges, ls, total, v, lf[v]);
    if SuccList(edges, v) != [] {
      var w :| w in SuccList(edges, v) && w in ls && lf[v] == ls[w];
      assert (v, w).1 in nodes;
      var j := PositionOf(topo, nodes, edges, w);
      assert (topo[k], topo[j]) in edges;
      FinishSlackAt(topo, nodes, edges, dur, es, ef, total, ls, lf, j);
      assert lf[w] == ls[w] + dur[w] && ef[w] == es[w] + dur[w];
      assert IsEarliestStart(edges, ef, w, es[w]);
      assert v in PredList(edges, w);
    }
  }

  /** Slack is never negative: ES <= LS and EF <= LF for every node, for
      any total no smaller than every earliest finish, whatever the sign of
      the durations. */
  lemma SlackNonNegative(topo: seq<Name>, nodes: seq<Name>, edges: seq<Edge>, dur: map<Name, real>,
                         es: map<Name, real>, ef: map<Name, real>, total: real,
                         ls: map<Name, real>, lf: map<Name, real>)
    requires EdgesWithin(nodes, edges) && IsTopologicalOrder(topo, nodes, edges)
    requires EarliestTimes(nodes, edges, dur, es, ef)
    requires LatestTimes(nodes, edges, dur, total, ls, lf)
    requires forall v :: v in ef ==> ef[v] <= total
    ensures forall v :: v in nodes ==> es[v] <= ls[v] && ef[v] <= lf[v]
  {
    forall v | v in nodes ensures es[v] <= ls[v] && ef[v] <= lf[v] {
      var k := PositionOf(topo, nodes, edges, v);
      FinishSlackAt(topo, nodes, edges, dur, es, ef, total, ls, lf, k);
      assert ls[v] == lf[v] - dur[v] && ef[v] == es[v] + dur[v];
    }
  }

  /** With non-negative durations no node finishes after the total at the
      latest. */
  lemma {:induction false} LatestWithinTotalAt(topo: seq<Name>, nodes: seq<Name>, edges: seq<Edge>, dur: map<Name, real>,
                                               total: real, ls: map<Name, real>, lf: map<Name, real>, k: nat)
    requires EdgesWithin(nodes, edges) && IsTopologicalOrder(topo, nodes, edges)
    requires NonNegativeDurations(nodes, dur)
    requires LatestTimes(nodes, edges, dur, total, ls, lf)
    requires k < |topo|
    ensures lf[topo[k]] <= total
    decreases |topo| - k
  {
    var v := topo[k];
    assert v in nodes;
    assert IsLatestFinish(edges, ls, total, v, lf[v]);
    if SuccList(edges, v) != [] {
      var w :| w in SuccList(edges, v) && w in ls && lf[v] == ls[w];
      assert (v, w).1 in nodes;
      var j := PositionOf(topo, nodes, edges, w);
      assert (topo[k], topo[j]) in edges;
      LatestWithinTotalAt(topo, nodes, edges, dur, total, ls, lf, j);
      assert ls[w] == lf[w] - dur[w];
    }
  }

  /** With non-negative durations a node whose earliest finish is the
      total has no slack. */
  lemma ZeroSlackAtTotal(topo: seq<Name>, nodes: seq<Name>, edges: seq<Edge>, dur: map<Name, real>,
                         es: map<Name, real>, ef: map<Name, real>, total: real,
                         ls: map<Name, real>, lf: map<Name, real>, x: Name)
    requires EdgesWithin(nodes, edges) && IsTopologicalOrder(topo, nodes, edges)
    requires NonNegativeDurations(nodes, dur)
    requires EarliestTimes(nodes, edges, dur, es, ef)
    requires LatestTimes(nodes, edges, dur, total, ls, lf)
    requires forall v :: v in ef ==> ef[v] <= total
    requires x in nodes && ef[x] == total
    ensures es[x] == ls[x]
  {
    var k := PositionOf(topo, nodes, edges, x);
    FinishSlackAt(topo, nodes, edges, dur, es, ef, total, ls, lf, k);
    LatestWithinTotalAt(topo, nodes, edges, dur, total, ls, lf, k);
    assert ls[x] == lf[x] - dur[x] && ef[x] == es[x] + dur[x];
  }

  /** With non-negative durations a non-empty project has a critical
      activity: the node whose earliest finish is the total has no slack. */
  lemma CriticalPathExists(topo: seq<Name>, nodes: seq<Name>, edges: seq<Edge>, dur: map<Name, real>,
                           es: map<Name, real>, ef: map<Name, real>, ls: map<Name, real>, lf: map<Name, real>)
    requires EdgesWithin(nodes, edges) && IsTopologicalOrder(topo, nodes, edges)
    requires NonNegativeDurations(nodes, dur)
    requires EarliestTimes(nodes, edges, dur, es, ef)
    requires topo != []
    requires LatestTimes(nodes, edges, dur, TotalDuration(topo, ef).value, ls, lf)
    ensures CriticalNodes(nodes, es, ls) != []
  {
    var total := TotalDuration(topo, ef).value;
    var x :| x in topo && total == ef[x];
    assert forall v :: v in ef ==> v in topo;
    ZeroSlackAtTotal(topo, nodes, edges, dur, es, ef, total, ls, lf, x);
    assert x in CriticalNodes(nodes, es, ls);
  }

  /** With non-negative durations, following successor edges from the node
      at position k reaches a node without successors whose earliest finish
      is at least as late. */
  lemma {:induction false} SinkReachedAt(topo: seq<Name>, nodes: seq<Name>, edges: seq<Edge>, dur: map<Name, real>,
                                         es: map<Name, real>, ef: map<Name, real>, k: nat) returns (s: Name)
    requires EdgesWithin(nodes, edges) && IsTopologicalOrder(topo, nodes, edges)
    requires NonNegativeDurations(nodes, dur)
    requires EarliestTimes(nodes, edges, dur, es, ef)
    requires k < |topo|
    ensures s in nodes && SuccList(edges, s) == [] && ef[topo[k]] <= ef[s]
    decreases |topo| - k
  {
    var v := topo[k];
    assert v in nodes;
    if SuccList(edges, v) == [] {
      s := v;
    } else {
      var w := SuccList(edges, v)[0];
      assert (v, w) in edges;
      assert w in nodes;
      assert IsEarliestStart(edges, ef, w, es[w]);
      assert v in PredList(edges, w);
      assert ef[v] <= es[w] <= ef[w];
      var j := PositionOf(topo, nodes, edges, w);
      assert (topo[k], topo[j]) in edges;
      s := SinkReachedAt(topo, nodes, edges, dur, es, ef, j);
    }
  }

  /** With non-negative durations the project total is the earliest finish
      of a node without successors. */
  lemma TotalIsSinkFinish(topo: seq<Name>, nodes: seq<Name>, edges: seq<Edge>, dur: map<Name, real>,
                          es: map<Name, real>, ef: map<Name, real>) returns (s: Name)
    requires EdgesWithin(nodes, edges) && IsTopologicalOrder(topo, nodes, edges)
    requires NonNegativeDurations(nodes, dur)
    requires EarliestTimes(nodes, edges, dur, es, ef)
    requires topo != []
    ensures s in nodes && SuccList(edges, s) == [] && TotalDuration(topo, ef).value == ef[s]
  {
    var total := TotalDuration(topo, ef).value;
    var x :| x in topo && total == ef[x];
    var k := PositionOf(topo, nodes, edges, x);
    s := SinkReachedAt(topo, nodes, edges, dur, es, ef, k);
    assert s in topo;
  }

  /** Two maps over the same keys that agree on every key are equal. */
  lemma MapsAgree(keys: seq<Name>, m1: map<Name, real>, m2: map<Name, real>)
    requires forall v :: v in m1 <==> v in keys
    requires forall v :: v in m2 <==> v in keys
    requires forall v :: v in keys ==> m1[v] == m2[v]
    ensures m1 == m2
  {
  }

  /** The node at position k has the same earliest finish in any two
      solutions of the forward equations. */
  lemma {:induction false} EarliestUniqueAt(topo: seq<Name>, nodes: seq<Name>, edges: seq<Edge>, dur: map<Name, real>,
                                            es1: map<Name, real>, ef1: map<Name, real>,
                                            es2: map<Name, real>, ef2: map<Name, real>, k: nat)
    requires EdgesWithin(nodes, edges) && IsTopologicalOrder(topo, nodes, edges)
    requires EarliestTimes(nodes, edges, dur, es1, ef1)
    requires EarliestTimes(nodes, edges, dur, es2, ef2)
    requires k < |topo|
    ensures ef1[topo[k]] == ef2[topo[k]]
    decreases k
  {
    var v := topo[k];
    assert v in nodes;
    assert IsEarliestStart(edges, ef1, v, es1[v]);
    assert IsEarliestStart(edges, ef2, v, es2[v]);
    if PredList(edges, v) != [] {
      var u1 :| u1 in PredList(edges, v) && u1 in ef1 && es1[v] == ef1[u1];
      var u2 :| u2 in PredList(edges, v) && u2 in ef2 && es2[v] == ef2[u2];
      assert (u1, v).0 in nodes && (u2, v).0 in nodes;
      var j1 := PositionOf(topo, nodes, edges, u1);
      var j2 := PositionOf(topo, nodes, edges, u2);
      assert (topo[j1], topo[k]) in edges && (topo[j2], topo[k]) in edges;
      EarliestUniqueAt(topo, nodes, edges, dur, es1, ef1, es2, ef2, j1);
      EarliestUniqueAt(topo, nodes, edges, dur, es1, ef1, es2, ef2, j2);
      assert ef1[u2] <= es1[v] && ef2[u1] <= es2[v];
      assert es1[v] == es2[v];
    } else {
      assert es1[v] == 0.0 && es2[v] == 0.0;
    }
    assert ef1[v] == es1[v] + dur[v] && ef2[v] == es2[v] + dur[v];
  }

  /** The earliest times are determined by the graph and the durations:
      any two solutions agree, so the forward pass computes the only one. */
  lemma EarliestUnique(topo: seq<Name>, nodes: seq<Name>, edges: seq<Edge>, dur: map<Name, real>,
                       es1: map<Name, real>, ef1: map<Name, real>, es2: map<Name, real>, ef2: map<Name, real>)
    requires EdgesWithin(nodes, edges) && IsTopologicalOrder(topo, nodes, edges)
    requires EarliestTimes(nodes, edges, dur, es1, ef1)
    requires EarliestTimes(nodes, edges, dur, es2, ef2)
    ensures es1 == es2 && ef1 == ef2
  {
    forall v | v in nodes ensures es1[v] == es2[v] && ef1[v] == ef2[v] {
      EarliestUniqueNode(topo, nodes, edges, dur, es1, ef1, es2, ef2, v);
    }
    MapsAgree(nodes, es1, es2);
    MapsAgree(nodes, ef1, ef2);
  }

  /** One node's earliest start and finish agree in any two solutions. */
  lemma EarliestUniqueNode(topo: seq<Name>, nodes: seq<Name>, edges: seq<Edge>, dur: map<Name, real>,
                           es1: map<Name, real>, ef1: map<Name, real>, es2: map<Name, real>, ef2: map<Name, real>, v: Name)
    requires EdgesWithin(nodes, edges) && IsTopologicalOrder(topo, nodes, edges)
    requires EarliestTimes(nodes, edges, dur, es1, ef1)
    requires EarliestTimes(nodes, edges, dur, es2, ef2)
    requires v in nodes
    ensures es1[v] == es2[v] && ef1[v] == ef2[v]
  {
    var k := PositionOf(topo, nodes, edges, v);
    EarliestUniqueAt(topo, nodes, edges, dur, es1, ef1, es2, ef2, k);
    assert ef1[v] == es1[v] + dur[v] && ef2[v] == es2[v] + dur[v];
  }

  /** The node at position k has the same latest start in any two
      solutions of the backward equations for the same total. */
  lemma {:induction false} LatestUniqueAt(topo: seq<Name>, nodes: seq<Name>, edges: seq<Edge>, dur: map<Name, real>, total: real,
                                          ls1: map<Name, real>, lf1: map<Name, real>,
                                          ls2: map<Name, real>, lf2: map<Name, real>, k: nat)
    requires EdgesWithin(nodes, edges) && IsTopologicalOrder(topo, nodes, edges)
    requires LatestTimes(nodes, edges, dur, total, ls1, lf1)
    requires LatestTimes(nodes, edges, dur, total, ls2, lf2)
    requires k < |topo|
    ensures ls1[topo[k]] == ls2[topo[k]]
    decreases |topo| - k
  {
    var v := topo[k];
    assert v in nodes;
    assert IsLatestFinish(edges, ls1, total, v, lf1[v]);
    assert IsLatestFinish(edges, ls2, total, v, lf2[v]);
    if SuccList(edges, v) != [] {
      var w1 :| w1 in SuccList(edges, v) && w1 in ls1 && lf1[v] == ls1[w1];
      var w2 :| w2 in SuccList(edges, v) && w2 in ls2 && lf2[v] == ls2[w2];
      assert (v, w1).1 in nodes && (v, w2).1 in nodes;
      var j1 := PositionOf(topo, nodes, edges, w1);
      var j2 := PositionOf(topo, nodes, edges, w2);
      assert (topo[k], topo[j1]) in edges && (topo[k], topo[j2]) in edges;
      LatestUniqueAt(topo, nodes, edges, dur, total, ls1, lf1, ls2, lf2, j1);
      LatestUniqueAt(topo, nodes, edges, dur, total, ls1, lf1, ls2, lf2, j2);
      assert lf1[v] <= ls1[w2] && lf2[v] <= ls2[w1];
      assert lf1[v] == lf2[v];
    } else {
      assert lf1[v] == total && lf2[v] == total;
    }
    assert ls1[v] == lf1[v] - dur[v] && ls2[v] == lf2[v] - dur[v];
  }

  /** The latest times are determined by the graph, the durations and the
      total: the backward pass computes the only solution. */
  lemma LatestUnique(topo: seq<Name>, nodes: seq<Name>, edges: seq<Edge>, dur: map<Name, real>, total: real,
                     ls1: map<Name, real>, lf1: map<Name, real>, ls2: map<Name, real>, lf2: map<Name, real>)
    requires EdgesWithin(nodes, edges) && IsTopologicalOrder(topo, nodes, edges)
    requires LatestTimes(nodes, edges, dur, total, ls1, lf1)
    requires LatestTimes(nodes, edges, dur, total, ls2, lf2)
    ensures ls1 == ls2 && lf1 == lf2
  {
    forall v | v in nodes ensures ls1[v] == ls2[v] && lf1[v] == lf2[v] {
      LatestUniqueNode(topo, nodes, edges, dur, total, ls1, lf1, ls2, lf2, v);
    }
    MapsAgree(nodes, ls1, ls2);
    MapsAgree(nodes, lf1, lf2);
  }

  /** One node's latest start and finish agree in any two solutions. */
  lemma LatestUniqueNode(topo: seq<Name>, nodes: seq<Name>, edges: seq<Edge>, dur: map<Name, real>, total: real,
                         ls1: map<Name, real>, lf1: map<Name, real>, ls2: map<Name, real>, lf2: map<Name, real>, v: Name)
    requires EdgesWithin(nodes, edges) && IsTopologicalOrder(topo, nodes, edges)
    requires LatestTimes(nodes, edges, dur, total, ls1, lf1)
    requires LatestTimes(nodes, edges, dur, total, ls2, lf2)
    requires v in nodes
    ensures ls1[v] == ls2[v] && lf1[v] == lf2[v]
  {
    var k := PositionOf(topo, nodes, edges, v);
    LatestUniqueAt(topo, nodes, edges, dur, total, ls1, lf1, ls2, lf2, k);
    assert ls1[v] == lf1[v] - dur[v] && ls2[v] == lf2[v] - dur[v];
  }
}
