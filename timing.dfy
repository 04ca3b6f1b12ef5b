/** The Critical Path Method passes over the precedence graph: earliest
    start and finish times in topological order, latest start and finish
    times in reverse topological order, the project total and the set of
    critical activities. */
module CriticalPath {
  import opened Seqs
  import opened Activities
  import opened PrecedenceGraph
  import opened Results
  import opened TopologicalOrder

  /** `[m.get(k, d) for k in keys]`. */
  function Lookups(m: map<Name, real>, keys: seq<Name>, d: real): seq<real>
  {
    if keys == [] then [] else [if keys[0] in m then m[keys[0]] else d] + Lookups(m, keys[1..], d)
  }

  /** The k-th looked-up value belongs to the k-th key. */
  lemma {:induction false} LookupsEntries(m: map<Name, real>, keys: seq<Name>, d: real)
    ensures var r := Lookups(m, keys, d);
            |r| == |keys| && forall k :: 0 <= k < |r| ==> r[k] == if keys[k] in m then m[keys[k]] else d
  {
    if keys != [] {
      LookupsEntries(m, keys[1..], d);
    }
  }

  /** Python's `max(xs, default=d)`. */
  function MaxOr(xs: seq<real>, d: real): real
  {
    if xs == [] then d
    else if |xs| == 1 then xs[0]
    else
      var rest := MaxOr(xs[1..], d);
      if xs[0] >= rest then xs[0] else rest
  }

  /** The maximum is the default for no values, and otherwise one of the
      values, no smaller than any of them. */
  lemma {:induction false} MaxOrBounds(xs: seq<real>, d: real)
    ensures xs == [] ==> MaxOr(xs, d) == d
    ensures xs != [] ==> MaxOr(xs, d) in xs && forall x :: x in xs ==> x <= MaxOr(xs, d)
  {
    if |xs| > 1 {
      MaxOrBounds(xs[1..], d);
      assert forall x :: x in xs ==> x == xs[0] || x in xs[1..];
    }
  }

  /** Python's `min(xs, default=d)`. */
  function MinOr(xs: seq<real>, d: real): real
  {
    if xs == [] then d
    else if |xs| == 1 then xs[0]
    else
      var rest := MinOr(xs[1..], d);
      if xs[0] <= rest then xs[0] else rest
  }

  /** The mirror of MaxOrBounds for the minimum. */
  lemma {:induction false} MinOrBounds(xs: seq<real>, d: real)
    ensures xs == [] ==> MinOr(xs, d) == d
    ensures xs != [] ==> MinOr(xs, d) in xs && forall x :: x in xs ==> MinOr(xs, d) <= x
  {
    if |xs| > 1 {
      MinOrBounds(xs[1..], d);
      assert forall x :: x in xs ==> x == xs[0] || x in xs[1..];
    }
  }

  /** When every key is present, the maximum of the looked-up values is the
      value of one of the keys and bounds the values of all of them. */
  lemma MaxOfLookups(m: map<Name, real>, keys: seq<Name>, d: real)
    requires forall u :: u in keys ==> u in m
    ensures forall u :: u in keys ==> m[u] <= MaxOr(Lookups(m, keys, d), d)
    ensures keys != [] ==> exists u :: u in keys && MaxOr(Lookups(m, keys, d), d) == m[u]
  {
    var xs := Lookups(m, keys, d);
    LookupsEntries(m, keys, d);
    MaxOrBounds(xs, d);
    forall u | u in keys ensures m[u] <= MaxOr(xs, d) {
      var k :| 0 <= k < |keys| && keys[k] == u;
      assert xs[k] == m[u] && xs[k] in xs;
    }
    if keys != [] {
      var k :| 0 <= k < |xs| && xs[k] == MaxOr(xs, d);
      assert keys[k] in keys;
    }
  }

  /** The mirror of MaxOfLookups for the minimum. */
  lemma MinOfLookups(m: map<Name, real>, keys: seq<Name>, d: real)
    requires forall u :: u in keys ==> u in m
    ensures forall u :: u in keys ==> MinOr(Lookups(m, keys, d), d) <= m[u]
    ensures keys != [] ==> exists u :: u in keys && MinOr(Lookups(m, keys, d), d) == m[u]
  {
    var xs := Lookups(m, keys, d);
    LookupsEntries(m, keys, d);
    MinOrBounds(xs, d);
    forall u | u in keys ensures MinOr(xs, d) <= m[u] {
      var k :| 0 <= k < |keys| && keys[k] == u;
      assert xs[k] == m[u] && xs[k] in xs;
    }
    if keys != [] {
      var k :| 0 <= k < |xs| && xs[k] == MinOr(xs, d);
      assert keys[k] in keys;
    }
  }

  /** `max(keys, key=m.get)`: the first key, in order, whose value is
      largest (a later key replaces the current one only when strictly
      larger). */
  function ArgMax(keys: seq<Name>, m: map<Name, real>): (k: Name)
    requires keys != []
    requires forall x :: x in keys ==> x in m
    ensures k in keys
    ensures forall x :: x in keys ==> m[x] <= m[k]
    decreases |keys|
  {
    if |keys| == 1 then keys[0]
    else
      var best := ArgMax(keys[..|keys| - 1], m);
      var last := keys[|keys| - 1];
      assert forall x :: x in keys ==> x in keys[..|keys| - 1] || x == last by {
        assert keys == keys[..|keys| - 1] + [last];
      }
      if m[last] > m[best] then last else best
  }

  /** Line 88, `earliest_finish[max(earliest_finish, key=earliest_finish.get)]`:
      the largest earliest finish, or the failure of `max` on an empty dict. */
  function TotalDuration(keys: seq<Name>, ef: map<Name, real>): (r: Result<real>)
    requires forall x :: x in keys ==> x in ef
    ensures r.Err? <==> keys == []
    ensures r.Err? ==> r.error == EmptyGraph
    ensures r.Ok? ==> (forall x :: x in keys ==> ef[x] <= r.value) && exists x :: x in keys && r.value == ef[x]
  {
    if keys == [] then Err(EmptyGraph) else Ok(ef[ArgMax(keys, ef)])
  }

  /** x is the earliest start of v given the finish times ef: zero without
      predecessors, otherwise the largest finish of a predecessor. */
  ghost predicate IsEarliestStart(edges: seq<Edge>, ef: map<Name, real>, v: Name, x: real) {
    && (PredList(edges, v) == [] ==> x == 0.0)
    && (forall u :: u in PredList(edges, v) ==> u in ef && ef[u] <= x)
    && (PredList(edges, v) != [] ==> exists u :: u in PredList(edges, v) && u in ef && x == ef[u])
  }

  /** x is the latest finish of u given the start times ls: the project
      total without successors, otherwise the smallest start of a successor. */
  ghost predicate IsLatestFinish(edges: seq<Edge>, ls: map<Name, real>, total: real, u: Name, x: real) {
    && (SuccList(edges, u) == [] ==> x == total)
    && (forall w :: w in SuccList(edges, u) ==> w in ls && x <= ls[w])
    && (SuccList(edges, u) != [] ==> exists w :: w in SuccList(edges, u) && w in ls && x == ls[w])
  }

  /** es and ef are the earliest start and finish times of every node. */
  ghost predicate EarliestTimes(nodes: seq<Name>, edges: seq<Edge>, dur: map<Name, real>,
                                es: map<Name, real>, ef: map<Name, real>) {
    && (forall v :: v in es <==> v in nodes)
    && (forall v :: v in ef <==> v in nodes)
    && (forall v {:trigger es[v]} :: v in nodes ==> v in dur && ef[v] == es[v] + dur[v] && IsEarliestStart(edges, ef, v, es[v]))
  }

  /** ls and lf are the latest start and finish times of every node for the
      given project total. */
  ghost predicate LatestTimes(nodes: seq<Name>, edges: seq<Edge>, dur: map<Name, real>, total: real,
                              ls: map<Name, real>, lf: map<Name, real>) {
    && (forall v :: v in ls <==> v in nodes)
    && (forall v :: v in lf <==> v in nodes)
    && (forall v {:trigger lf[v]} :: v in nodes ==> v in dur && ls[v] == lf[v] - dur[v] && IsLatestFinish(edges, ls, total, v, lf[v]))
  }

  /** The start and finish maps one pass fills in. */
  datatype Times = Times(start: map<Name, real>, finish: map<Name, real>)

  /** `G.nodes[v]['duration']`, read as 0 where the graph has none. */
  function DurationOf(dur: map<Name, real>, v: Name): real
  {
    if v in dur then dur[v] else 0.0
  }

  /** The earliest start the forward loop assigns to node, given the finish
      times so far. */
  function StartAfter(edges: seq<Edge>, ef: map<Name, real>, node: Name): real {
    MaxOr(Lookups(ef, PredList(edges, node), 0.0), 0.0)
  }

  /** The latest finish the backward loop assigns to node, given the start
      times so far. */
  function FinishBefore(edges: seq<Edge>, ls: map<Name, real>, total: real, node: Name): real {
    MinOr(Lookups(ls, SuccList(edges, node), total), total)
  }

  /** One iteration of the forward loop, at node. */
  function ForwardVisit(edges: seq<Edge>, dur: map<Name, real>, t: Times, node: Name): Times {
    var start := StartAfter(edges, t.finish, node);
    Times(t.start[node := start], t.finish[node := start + DurationOf(dur, node)])
  }

  /** One iteration of the backward loop, at node. */
  function BackwardVisit(edges: seq<Edge>, dur: map<Name, real>, total: real, t: Times, node: Name): Times {
    var finish := FinishBefore(edges, t.start, total, node);
    Times(t.start[node := finish - DurationOf(dur, node)], t.finish[node := finish])
  }

  /** The forward pass over the nodes of rest, left to right, starting from
      the times t already computed. */
  function ForwardFrom(edges: seq<Edge>, dur: map<Name, real>, rest: seq<Name>, t: Times): Times
    decreases |rest|
  {
    if rest == [] then t else ForwardFrom(edges, dur, rest[1..], ForwardVisit(edges, dur, t, rest[0]))
  }

  /** The backward pass over the nodes of rest, right to left, starting
      from the times t already computed. */
  function BackwardFrom(edges: seq<Edge>, dur: map<Name, real>, total: real, rest: seq<Name>, t: Times): Times
    decreases |rest|
  {
    if rest == [] then t
    else BackwardFrom(edges, dur, total, rest[..|rest| - 1], BackwardVisit(edges, dur, total, t, rest[|rest| - 1]))
  }

  /** Every node with an entry in es got it from the assignments of the
      forward loop, with the finish times it has now. */
  ghost predicate ForwardEquations(edges: seq<Edge>, dur: map<Name, real>, es: map<Name, real>, ef: map<Name, real>) {
    forall v {:trigger es[v]} :: v in es ==> v in ef && ef[v] == es[v] + DurationOf(dur, v) && es[v] == StartAfter(edges, ef, v)
  }

  /** Every node with an entry in lf got it from the assignments of the
      backward loop, with the start times it has now. */
  ghost predicate BackwardEquations(edges: seq<Edge>, dur: map<Name, real>, total: real, ls: map<Name, real>, lf: map<Name, real>) {
    forall v {:trigger lf[v]} :: v in lf ==> v in ls && ls[v] == lf[v] - DurationOf(dur, v) && lf[v] == FinishBefore(edges, ls, total, v)
  }

  /** The predecessors of every node with an entry have one too. */
  ghost predicate PredecessorClosed(edges: seq<Edge>, m: map<Name, real>) {
    forall u, v :: (u, v) in edges && v in m ==> u in m
  }

  /** The successors of every node with an entry have one too. */
  ghost predicate SuccessorClosed(edges: seq<Edge>, m: map<Name, real>) {
    forall u, w :: (u, w) in edges && u in m ==> w in m
  }

  /** Lookups ignore an entry none of the keys names. */
  lemma {:induction false} LookupsUnchanged(m: map<Name, real>, keys: seq<Name>, d: real, k: Name, x: real)
    requires k !in keys
    ensures Lookups(m[k := x], keys, d) == Lookups(m, keys, d)
  {
    if keys != [] {
      assert k != keys[0];
      assert k !in keys[1..] by {
        assert forall y :: y in keys[1..] ==> y in keys;
      }
      LookupsUnchanged(m, keys[1..], d, k, x);
    }
  }

  /** One step of the forward pass: a new node whose predecessors all have
      their times gets its own, and the nodes done before keep theirs. */
  lemma ForwardStep(edges: seq<Edge>, dur: map<Name, real>, t: Times, node: Name)
    requires ForwardEquations(edges, dur, t.start, t.finish) && PredecessorClosed(edges, t.start)
    requires forall v :: v in t.start <==> v in t.finish
    requires node !in t.start
    requires forall u :: u in PredList(edges, node) ==> u in t.start
    ensures var t' := ForwardVisit(edges, dur, t, node);
            ForwardEquations(edges, dur, t'.start, t'.finish) && PredecessorClosed(edges, t'.start)
  {
    var t' := ForwardVisit(edges, dur, t, node);
    forall v | v in t'.start
      ensures v in t'.finish && t'.finish[v] == t'.start[v] + DurationOf(dur, v) && t'.start[v] == StartAfter(edges, t'.finish, v)
    {
      var preds := PredList(edges, v);
      assert node !in preds;
      LookupsUnchanged(t.finish, preds, 0.0, node, t'.finish[node]);
    }
  }

  /** One step of the backward pass, the mirror of ForwardStep. */
  lemma BackwardStep(edges: seq<Edge>, dur: map<Name, real>, total: real, t: Times, node: Name)
    requires BackwardEquations(edges, dur, total, t.start, t.finish) && SuccessorClosed(edges, t.finish)
    requires forall v :: v in t.start <==> v in t.finish
    requires node !in t.finish
    requires forall w :: w in SuccList(edges, node) ==> w in t.finish
    ensures var t' := BackwardVisit(edges, dur, total, t, node);
            BackwardEquations(edges, dur, total, t'.start, t'.finish) && SuccessorClosed(edges, t'.finish)
  {
    var t' := BackwardVisit(edges, dur, total, t, node);
    forall v | v in t'.finish
      ensures v in t'.start && t'.start[v] == t'.finish[v] - DurationOf(dur, v) && t'.finish[v] == FinishBefore(edges, t'.start, total, v)
    {
      var succs := SuccList(edges, v);
      assert node !in succs;
      LookupsUnchanged(t.start, succs, total, node, t'.start[node]);
    }
  }

  /** Edges among the nodes of rest point from an earlier position to a later one. */
  ghost predicate EdgesForward(rest: seq<Name>, edges: seq<Edge>) {
    forall i, j :: 0 <= i < |rest| && 0 <= j < |rest| && (rest[i], rest[j]) in edges ==> i < j
  }

  /** The forward pass from times t over rest makes the assignments of the
      forward loop for every node when the nodes of rest are new and every
      predecessor of a node of rest has its times already or comes earlier
      in rest. */
  lemma {:induction false} ForwardFromCorrect(edges: seq<Edge>, dur: map<Name, real>, rest: seq<Name>, t: Times)
    requires ForwardEquations(edges, dur, t.start, t.finish) && PredecessorClosed(edges, t.start)
    requires forall v :: v in t.start <==> v in t.finish
    requires Distinct(rest) && EdgesForward(rest, edges)
    requires forall v :: v in rest ==> v !in t.start
    requires forall u, v :: (u, v) in edges && v in rest ==> u in t.start || u in rest
    ensures var r := ForwardFrom(edges, dur, rest, t);
            && ForwardEquations(edges, dur, r.start, r.finish)
            && (forall v :: v in r.start <==> v in t.start || v in rest)
            && (forall v :: v in r.finish <==> v in t.start || v in rest)
    decreases |rest|
  {
    if rest != [] {
      var node := rest[0];
      assert forall u :: u in PredList(edges, node) ==> u in t.start;
      ForwardStep(edges, dur, t, node);
      var t' := ForwardVisit(edges, dur, t, node);
      ForwardRestReady(edges, rest, t, t');
      ForwardFromCorrect(edges, dur, rest[1..], t');
    }
  }

  /** The conditions of ForwardFromCorrect carry over to the tail of rest. */
  lemma ForwardRestReady(edges: seq<Edge>, rest: seq<Name>, t: Times, t': Times)
    requires rest != [] && Distinct(rest) && EdgesForward(rest, edges)
    requires forall v :: v in rest ==> v !in t.start
    requires forall u, v :: (u, v) in edges && v in rest ==> u in t.start || u in rest
    requires forall v :: v in t'.start <==> v in t.start || v == rest[0]
    ensures Distinct(rest[1..]) && EdgesForward(rest[1..], edges)
    ensures forall v :: v in rest[1..] ==> v !in t'.start
    ensures forall u, v :: (u, v) in edges && v in rest[1..] ==> u in t'.start || u in rest[1..]
  {
    assert forall v :: v in rest <==> v == rest[0] || v in rest[1..] by {
      assert rest == [rest[0]] + rest[1..];
    }
    forall i, j | 0 <= i < |rest[1..]| && 0 <= j < |rest[1..]| && (rest[1..][i], rest[1..][j]) in edges ensures i < j {
      assert (rest[i + 1], rest[j + 1]) in edges;
    }
    forall v | v in rest[1..] ensures v != rest[0] {
      var j :| 0 <= j < |rest[1..]| && rest[1..][j] == v;
      assert rest[j + 1] == v;
    }
  }

  /** The mirror of ForwardFromCorrect: the backward pass from times t over
      rest, right to left, when every successor of a node of rest has its
      times already or comes later in rest. */
  lemma {:induction false} BackwardFromCorrect(edges: seq<Edge>, dur: map<Name, real>, total: real, rest: seq<Name>, t: Times)
    requires BackwardEquations(edges, dur, total, t.start, t.finish) && SuccessorClosed(edges, t.finish)
    requires forall v :: v in t.start <==> v in t.finish
    requires Distinct(rest) && EdgesForward(rest, edges)
    requires forall v :: v in rest ==> v !in t.finish
    requires forall u, w :: (u, w) in edges && u in rest ==> w in t.finish || w in rest
    ensures var r := BackwardFrom(edges, dur, total, rest, t);
            && BackwardEquations(edges, dur, total, r.start, r.finish)
            && (forall v :: v in r.start <==> v in t.finish || v in rest)
            && (forall v :: v in r.finish <==> v in t.finish || v in rest)
    decreases |rest|
  {
    if rest != [] {
      var last := |rest| - 1;
      var node := rest[last];
      assert forall w :: w in SuccList(edges, node) ==> w in t.finish;
      BackwardStep(edges, dur, total, t, node);
      var t' := BackwardVisit(edges, dur, total, t, node);
      BackwardRestReady(edges, rest, t, t');
      BackwardFromCorrect(edges, dur, total, rest[..last], t');
    }
  }

  /** The conditions of BackwardFromCorrect carry over to rest without its last node. */
  lemma BackwardRestReady(edges: seq<Edge>, rest: seq<Name>, t: Times, t': Times)
    requires rest != [] && Distinct(rest) && EdgesForward(rest, edges)
    requires forall v :: v in rest ==> v !in t.finish
    requires forall u, w :: (u, w) in edges && u in rest ==> w in t.finish || w in rest
    requires forall v :: v in t'.finish <==> v in t.finish || v == rest[|rest| - 1]
    ensures var front := rest[..|rest| - 1];
            && Distinct(front) && EdgesForward(front, edges)
            && (forall v :: v in front ==> v !in t'.finish)
            && (forall u, w :: (u, w) in edges && u in front ==> w in t'.finish || w in front)
  {
    var last := |rest| - 1;
    var front := rest[..last];
    assert forall v :: v in rest <==> v == rest[last] || v in front by {
      assert rest == front + [rest[last]];
    }
    forall i, j | 0 <= i < |front| && 0 <= j < |front| && (front[i], front[j]) in edges ensures i < j {
      assert (rest[i], rest[j]) in edges;
    }
    forall v | v in front ensures v != rest[last] {
      var j :| 0 <= j < |front| && front[j] == v;
      assert rest[j] == v;
    }
  }

  /** A topological order meets the conditions of both correctness lemmas
      from empty times. */
  lemma TopologicalOrderIsReady(topo: seq<Name>, nodes: seq<Name>, edges: seq<Edge>)
    requires EdgesWithin(nodes, edges) && IsTopologicalOrder(topo, nodes, edges)
    ensures Distinct(topo) && EdgesForward(topo, edges)
    ensures forall u, v :: (u, v) in edges ==> u in topo && v in topo
  {
    forall u, v | (u, v) in edges ensures u in topo && v in topo {
      assert (u, v).0 in nodes && (u, v).1 in nodes;
    }
  }

  /** Once every node has the times the forward loop assigns, they are the
      earliest times of the graph, and every edge's source finishes no
      later than its target starts. */
  lemma EquationsGiveEarliest(nodes: seq<Name>, edges: seq<Edge>, dur: map<Name, real>, es: map<Name, real>, ef: map<Name, real>)
    requires EdgesWithin(nodes, edges)
    requires forall v :: v in nodes ==> v in dur
    requires forall v :: v in es <==> v in nodes
    requires forall v :: v in ef <==> v in nodes
    requires ForwardEquations(edges, dur, es, ef)
    ensures EarliestTimes(nodes, edges, dur, es, ef)
    ensures forall u, v :: (u, v) in edges ==> ef[u] <= es[v]
  {
    forall v | v in nodes ensures IsEarliestStart(edges, ef, v, es[v]) {
      var preds := PredList(edges, v);
      forall u | u in preds ensures u in ef {
        assert (u, v).0 in nodes;
      }
      MaxOfLookups(ef, preds, 0.0);
      LookupsEntries(ef, preds, 0.0);
      MaxOrBounds(Lookups(ef, preds, 0.0), 0.0);
    }
    forall u, v | (u, v) in edges ensures ef[u] <= es[v] {
      assert (u, v).1 in nodes;
      assert u in PredList(edges, v);
      assert IsEarliestStart(edges, ef, v, es[v]);
    }
  }

  /** The mirror of EquationsGiveEarliest for the latest times. */
  lemma EquationsGiveLatest(nodes: seq<Name>, edges: seq<Edge>, dur: map<Name, real>, total: real,
                            ls: map<Name, real>, lf: map<Name, real>)
    requires EdgesWithin(nodes, edges)
    requires forall v :: v in nodes ==> v in dur
    requires forall v :: v in ls <==> v in nodes
    requires forall v :: v in lf <==> v in nodes
    requires BackwardEquations(edges, dur, total, ls, lf)
    ensures LatestTimes(nodes, edges, dur, total, ls, lf)
    ensures forall u, v :: (u, v) in edges ==> lf[u] <= ls[v]
  {
    forall u | u in nodes ensures IsLatestFinish(edges, ls, total, u, lf[u]) {
      var succs := SuccList(edges, u);
      forall w | w in succs ensures w in ls {
        assert (u, w).1 in nodes;
      }
      MinOfLookups(ls, succs, total);
      LookupsEntries(ls, succs, total);
      MinOrBounds(Lookups(ls, succs, total), total);
    }
    forall u, v | (u, v) in edges ensures lf[u] <= ls[v] {
      assert (u, v).0 in nodes;
      assert v in SuccList(edges, u);
      assert IsLatestFinish(edges, ls, total, u, lf[u]);
    }
  }

  /** The forward pass over a whole topological order computes the earliest
      times of the graph, and every edge's source finishes no later than its
      target starts. */
  lemma ForwardPassCorrect(nodes: seq<Name>, edges: seq<Edge>, dur: map<Name, real>, topo: seq<Name>)
    requires EdgesWithin(nodes, edges) && IsTopologicalOrder(topo, nodes, edges)
    requires forall v :: v in nodes ==> v in dur
    ensures var r := ForwardFrom(edges, dur, topo, Times(map[], map[]));
            && EarliestTimes(nodes, edges, dur, r.start, r.finish)
            && forall u, v :: (u, v) in edges ==> r.finish[u] <= r.start[v]
  {
    TopologicalOrderIsReady(topo, nodes, edges);
    ForwardFromCorrect(edges, dur, topo, Times(map[], map[]));
    var r := ForwardFrom(edges, dur, topo, Times(map[], map[]));
    EquationsGiveEarliest(nodes, edges, dur, r.start, r.finish);
  }

  /** The backward pass over a whole topological order computes the latest
      times of the graph for the given total, and every edge's source
      finishes no later than its target starts. */
  lemma BackwardPassCorrect(nodes: seq<Name>, edges: seq<Edge>, dur: map<Name, real>, total: real, topo: seq<Name>)
    requires EdgesWithin(nodes, edges) && IsTopologicalOrder(topo, nodes, edges)
    requires forall v :: v in nodes ==> v in dur
    ensures var r := BackwardFrom(edges, dur, total, topo, Times(map[], map[]));
            && LatestTimes(nodes, edges, dur, total, r.start, r.finish)
            && forall u, v :: (u, v) in edges ==> r.finish[u] <= r.start[v]
  {
    TopologicalOrderIsReady(topo, nodes, edges);
    BackwardFromCorrect(edges, dur, total, topo, Times(map[], map[]));
    var r := BackwardFrom(edges, dur, total, topo, Times(map[], map[]));
    EquationsGiveLatest(nodes, edges, dur, total, r.start, r.finish);
  }

  /** A forward visit writes the node's start and finish and nothing else. */
  lemma ForwardVisitUpdates(edges: seq<Edge>, dur: map<Name, real>, t: Times, node: Name)
    requires node in dur
    ensures var start := MaxOr(Lookups(t.finish, PredList(edges, node), 0.0), 0.0);
            ForwardVisit(edges, dur, t, node) == Times(t.start[node := start], t.finish[node := start + dur[node]])
  {
  }

  /** A backward visit writes the node's start and finish and nothing else. */
  lemma BackwardVisitUpdates(edges: seq<Edge>, dur: map<Name, real>, total: real, t: Times, node: Name)
    requires node in dur
    ensures var finish := MinOr(Lookups(t.start, SuccList(edges, node), total), total);
            BackwardVisit(edges, dur, total, t, node) == Times(t.start[node := finish - dur[node]], t.finish[node := finish])
  {
  }

  /** The forward pass over s[i..] is the visit of s[i] followed by the
      pass over s[i + 1..]. */
  lemma ForwardFromSuffix(edges: seq<Edge>, dur: map<Name, real>, s: seq<Name>, i: nat, t: Times)
    requires i < |s|
    ensures ForwardFrom(edges, dur, s[i..], t) == ForwardFrom(edges, dur, s[i + 1..], ForwardVisit(edges, dur, t, s[i]))
  {
    assert s[i..][1..] == s[i + 1..];
  }

  /** The backward pass over s[..i] is the visit of s[i - 1] followed by
      the pass over s[..i - 1]. */
  lemma BackwardFromPrefix(edges: seq<Edge>, dur: map<Name, real>, total: real, s: seq<Name>, i: nat, t: Times)
    requires 0 < i <= |s|
    ensures BackwardFrom(edges, dur, total, s[..i], t)
         == BackwardFrom(edges, dur, total, s[..i - 1], BackwardVisit(edges, dur, total, t, s[i - 1]))
  {
    assert s[..i][..i - 1] == s[..i - 1];
  }

  /** Lines 66-72, the forward pass: in topological order, each node starts
      at the largest finish of its predecessors (0 without any) and finishes
      its duration later. */
  method ForwardPass(nodes: seq<Name>, edges: seq<Edge>, dur: map<Name, real>, topo: seq<Name>)
    returns (es: map<Name, real>, ef: map<Name, real>)
    requires EdgesWithin(nodes, edges)
    requires IsTopologicalOrder(topo, nodes, edges)
    requires forall v :: v in nodes ==> v in dur
    ensures Times(es, ef) == ForwardFrom(edges, dur, topo, Times(map[], map[]))
    ensures EarliestTimes(nodes, edges, dur, es, ef)
    ensures forall u, v :: (u, v) in edges ==> ef[u] <= es[v]
  {
    es, ef := map[], map[];
    var i := 0;
    while i < |topo|
      invariant 0 <= i <= |topo|
      invariant ForwardFrom(edges, dur, topo[i..], Times(es, ef)) == ForwardFrom(edges, dur, topo, Times(map[], map[]))
    {
      var node := topo[i];
      var start := MaxOr(Lookups(ef, PredList(edges, node), 0.0), 0.0);
      var finish := start + dur[node];
      ForwardFromSuffix(edges, dur, topo, i, Times(es, ef));
      ForwardVisitUpdates(edges, dur, Times(es, ef), node);
      es := es[node := start];
      ef := ef[node := finish];
      i := i + 1;
    }
    ForwardPassCorrect(nodes, edges, dur, topo);
  }

  /** Lines 75-81, the backward pass: in reverse topological order, each
      node finishes at the smallest start of its successors (the project
      total without any) and starts its duration earlier. The total is
      read from the earliest finish times, so an empty graph never reaches
      it. */
  method BackwardPass(nodes: seq<Name>, edges: seq<Edge>, dur: map<Name, real>, topo: seq<Name>,
                      ef: map<Name, real>)
    returns (ls: map<Name, real>, lf: map<Name, real>)
    requires EdgesWithin(nodes, edges)
    requires IsTopologicalOrder(topo, nodes, edges)
    requires forall v :: v in nodes ==> v in dur && v in ef
    ensures topo == [] ==> ls == map[] && lf == map[]
    ensures topo != [] ==> Times(ls, lf) == BackwardFrom(edges, dur, TotalDuration(topo, ef).value, topo, Times(map[], map[]))
    ensures topo != [] ==> LatestTimes(nodes, edges, dur, TotalDuration(topo, ef).value, ls, lf)
    ensures forall u, v :: (u, v) in edges ==> lf[u] <= ls[v]
  {
    ls, lf := map[], map[];
    if topo == [] {
      return;
    }
    var total := TotalDuration(topo, ef).value;
    var i := |topo|;
    assert topo[..i] == topo;
    while i > 0
      invariant 0 <= i <= |topo|
      invariant BackwardFrom(edges, dur, total, topo[..i], Times(ls, lf)) == BackwardFrom(edges, dur, total, topo, Times(map[], map[]))
    {
      var node := topo[i - 1];
      var finish := MinOr(Lookups(ls, SuccList(edges, node), total), total);
      var start := finish - dur[node];
      BackwardFromPrefix(edges, dur, total, topo, i, Times(ls, lf));
      BackwardVisitUpdates(edges, dur, total, Times(ls, lf), node);
      lf := lf[node := finish];
      ls := ls[node := start];
      i := i - 1;
    }
    BackwardPassCorrect(nodes, edges, dur, total, topo);
  }

  /** Line 84, `[node for node in G.nodes if es[node] == ls[node]]`: the
      nodes with zero slack, in node order. */
  function CriticalNodes(nodes: seq<Name>, es: map<Name, real>, ls: map<Name, real>): (r: seq<Name>)
    requires forall v :: v in nodes ==> v in es && v in ls
    ensures forall v :: v in r <==> v in nodes && es[v] == ls[v]
    ensures IsSubsequence(r, nodes)
  {
    if nodes == [] then []
    else
      var rest := CriticalNodes(nodes[1..], es, ls);
      assert forall v :: v in nodes <==> v == nodes[0] || v in nodes[1..];
      if es[nodes[0]] == ls[nodes[0]] then
        [nodes[0]] + rest
      else
        SkipHeadSubsequence(rest, nodes);
        rest
  }

  /** Line 85: the critical flag of every node. */
  function CriticalFlags(nodes: seq<Name>, es: map<Name, real>, ls: map<Name, real>): (flags: map<Name, bool>)
    requires forall v :: v in nodes ==> v in es && v in ls
    ensures forall v :: v in flags <==> v in nodes
    ensures forall v :: v in flags ==> (flags[v] <==> es[v] == ls[v])
  {
    var path := CriticalNodes(nodes, es, ls);
    map v | v in nodes :: v in path
  }
}
