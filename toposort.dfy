/** A topological order of the precedence graph, computed by Kahn's
    algorithm in place of `nx.topological_sort`. */
module TopologicalOrder {
  import opened Seqs
  import opened Activities
  import opened PrecedenceGraph
  import opened Results

  /** topo lists every node exactly once, and every edge goes from an
      earlier position to a later one. */
  ghost predicate IsTopologicalOrder(topo: seq<Name>, nodes: seq<Name>, edges: seq<Edge>) {
    && Distinct(topo)
    && (forall n :: n in topo <==> n in nodes)
    && (forall i, j :: 0 <= i < |topo| && 0 <= j < |topo| && (topo[i], topo[j]) in edges ==> i < j)
  }

  /** Every edge has both endpoints among the nodes. */
  ghost predicate EdgesWithin(nodes: seq<Name>, edges: seq<Edge>) {
    forall e :: e in edges ==> e.0 in nodes && e.1 in nodes
  }

  /** v can be placed next: all of its predecessors are placed already. */
  predicate Ready(edges: seq<Edge>, placed: seq<Name>, v: Name) {
    forall u | u in PredList(edges, v) :: u in placed
  }

  /** The first position of t holding an element of rest. */
  lemma FirstInRest(t: seq<Name>, rest: seq<Name>, x: Name) returns (k: nat)
    requires x in rest && x in t
    ensures k < |t| && t[k] in rest
    ensures forall j :: 0 <= j < k ==> t[j] !in rest
  {
    k := 0;
    while t[k] !in rest
      invariant k < |t|
      invariant forall j :: 0 <= j < k ==> t[j] !in rest
      invariant x in t[k..]
      decreases |t| - k
    {
      assert t[k..] == [t[k]] + t[k + 1..];
      k := k + 1;
    }
  }

  /** Given any topological order t, the remaining node it places first is
      ready: all of its predecessors come before it in t, so none of them
      remains. */
  lemma OrderGivesReadyNode(nodes: seq<Name>, edges: seq<Edge>, placed: seq<Name>, rest: seq<Name>, t: seq<Name>)
    returns (v: Name)
    requires EdgesWithin(nodes, edges)
    requires forall n :: n in nodes <==> n in placed || n in rest
    requires rest != []
    requires IsTopologicalOrder(t, nodes, edges)
    ensures v in rest && Ready(edges, placed, v)
  {
    var k := FirstInRest(t, rest, rest[0]);
    v := t[k];
    forall u | u in PredList(edges, v) ensures u in placed {
      assert (u, v) in edges;
      var i :| 0 <= i < |t| && t[i] == u;
      assert i < k;
    }
  }

  /** Placing a ready node that is not placed yet keeps the placed list
      closed under predecessors and every edge among it pointing forward. */
  lemma PlaceReady(edges: seq<Edge>, placed: seq<Name>, v: Name)
    requires Ready(edges, placed, v) && v !in placed
    requires forall e :: e in edges && e.1 in placed ==> e.0 in placed
    requires forall i, j :: 0 <= i < |placed| && 0 <= j < |placed| && (placed[i], placed[j]) in edges ==> i < j
    ensures forall e :: e in edges && e.1 in placed + [v] ==> e.0 in placed + [v]
    ensures forall i, j :: 0 <= i < |placed + [v]| && 0 <= j < |placed + [v]| && ((placed + [v])[i], (placed + [v])[j]) in edges ==> i < j
  {
    var p := placed + [v];
    forall e | e in edges && e.1 in p ensures e.0 in p {
      if e.1 == v {
        assert e.0 in PredList(edges, v);
      }
    }
    forall i, j | 0 <= i < |p| && 0 <= j < |p| && (p[i], p[j]) in edges ensures i < j {
      if i < |placed| && j < |placed| {
        assert p[i] == placed[i] && p[j] == placed[j];
      }
    }
  }

  /** Kahn's algorithm: repeatedly place the first remaining node whose
      predecessors are all placed. It fails exactly when the graph has a
      cycle, i.e. when no topological order exists. */
  method TopologicalSort(nodes: seq<Name>, edges: seq<Edge>) returns (r: Result<seq<Name>>)
    requires Distinct(nodes)
    requires EdgesWithin(nodes, edges)
    ensures r.Ok? ==> IsTopologicalOrder(r.value, nodes, edges)
    ensures r.Err? ==> r.error == CycleFound && forall t :: !IsTopologicalOrder(t, nodes, edges)
  {
    var placed: seq<Name> := [];
    var rest := nodes;
    while rest != []
      invariant Distinct(placed) && Distinct(rest)
      invariant forall n :: n in nodes <==> n in placed || n in rest
      invariant forall n :: n in placed ==> n !in rest
      invariant forall e :: e in edges && e.1 in placed ==> e.0 in placed
      invariant forall i, j :: 0 <= i < |placed| && 0 <= j < |placed| && (placed[i], placed[j]) in edges ==> i < j
      decreases |rest|
    {
      var k := 0;
      while k < |rest| && !Ready(edges, placed, rest[k])
        invariant 0 <= k <= |rest|
        invariant forall j :: 0 <= j < k ==> !Ready(edges, placed, rest[j])
      {
        k := k + 1;
      }
      if k == |rest| {
        forall t ensures !IsTopologicalOrder(t, nodes, edges) {
          if IsTopologicalOrder(t, nodes, edges) {
            var w := OrderGivesReadyNode(nodes, edges, placed, rest, t);
          }
        }
        return Err(CycleFound);
      }
      var v := rest[k];
      PlaceReady(edges, placed, v);
      placed := placed + [v];
      rest := RemoveAt(rest, k);
    }
    return Ok(placed);
  }
}
