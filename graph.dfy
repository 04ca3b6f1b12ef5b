/** The precedence graph: a directed graph whose nodes carry a duration and
    a variance, built from the activity records by `add_node`/`add_edge`
    and then patched so that every node has both attributes. */
module PrecedenceGraph {
  import opened Seqs
  import opened Activities

  /** An edge pred -> succ. */
  type Edge = (Name, Name)

  /** `G.predecessors(v)`: the sources of the edges into v, in edge order. */
  function PredList(edges: seq<Edge>, v: Name): (r: seq<Name>)
    ensures forall u :: u in r <==> (u, v) in edges
  {
    if edges == [] then []
    else
      var rest := PredList(edges[1..], v);
      assert forall e :: e in edges <==> e == edges[0] || e in edges[1..];
      if edges[0].1 == v then [edges[0].0] + rest else rest
  }

  /** `G.successors(u)`: the targets of the edges out of u, in edge order. */
  function SuccList(edges: seq<Edge>, u: Name): (r: seq<Name>)
    ensures forall w :: w in r <==> (u, w) in edges
  {
    if edges == [] then []
    else
      var rest := SuccList(edges[1..], u);
      assert forall e :: e in edges <==> e == edges[0] || e in edges[1..];
      if edges[0].0 == u then [edges[0].1] + rest else rest
  }

  /** The edges `add_edge(p, a)` adds for the predecessors of activity a, in order. */
  function PredEdges(a: Name, preds: seq<Name>): (r: seq<Edge>)
    ensures |r| == |preds|
    ensures forall k :: 0 <= k < |r| ==> r[k] == (preds[k], a)
  {
    if preds == [] then [] else [(preds[0], a)] + PredEdges(a, preds[1..])
  }

  /** The predecessor list of a recorded activity; none for any other name. */
  function PredsOf(records: map<Name, Activity>, a: Name): seq<Name> {
    if a in records then records[a].predecessors else []
  }

  /** Every name the activities in `order` mention, in order: each
      activity followed by its predecessors. */
  function Mentioned(order: seq<Name>, records: map<Name, Activity>): (r: seq<Name>)
  {
    if order == [] then [] else [order[0]] + PredsOf(records, order[0]) + Mentioned(order[1..], records)
  }

  /** A name is mentioned exactly when it is one of the activities or a
      predecessor of one of them. */
  lemma {:induction false} MentionedMembers(order: seq<Name>, records: map<Name, Activity>)
    ensures forall n :: n in Mentioned(order, records) <==>
      n in order || exists a :: a in order && n in PredsOf(records, a)
    decreases |order|
  {
    if order != [] {
      var a := order[0];
      MentionedMembers(order[1..], records);
      assert Mentioned(order, records) == [a] + PredsOf(records, a) + Mentioned(order[1..], records);
      assert forall b :: b in order <==> b == a || b in order[1..];
    }
  }

  /** The node list after the build loop has handled the activities in
      `order`, starting from the list acc: each activity is added, then each
      of its predecessors (the activity itself being present already). */
  function NodesAfter(acc: seq<Name>, order: seq<Name>, records: map<Name, Activity>): seq<Name>
    decreases |order|
  {
    if order == [] then acc
    else NodesAfter(AppendAll(AppendNew(acc, order[0]), PredsOf(records, order[0])), order[1..], records)
  }

  /** The edge list after the build loop has handled the activities in `order`. */
  function EdgesAfter(acc: seq<Edge>, order: seq<Name>, records: map<Name, Activity>): seq<Edge>
    decreases |order|
  {
    if order == [] then acc
    else EdgesAfter(AppendAll(acc, PredEdges(order[0], PredsOf(records, order[0]))), order[1..], records)
  }

  /** The build loop adds exactly the mentioned names, each once. */
  lemma {:induction false} NodesAfterMembers(acc: seq<Name>, order: seq<Name>, records: map<Name, Activity>)
    ensures Distinct(acc) ==> Distinct(NodesAfter(acc, order, records))
    ensures forall n :: n in NodesAfter(acc, order, records) <==> n in acc || n in Mentioned(order, records)
    decreases |order|
  {
    if order != [] {
      var a := order[0];
      NodesAfterMembers(AppendAll(AppendNew(acc, a), PredsOf(records, a)), order[1..], records);
      assert Mentioned(order, records) == [a] + PredsOf(records, a) + Mentioned(order[1..], records);
    }
  }

  /** The edges of `PredEdges(a, preds)` are those from a listed predecessor to a. */
  lemma PredEdgesMembers(a: Name, preds: seq<Name>)
    ensures forall u, v :: (u, v) in PredEdges(a, preds) <==> v == a && u in preds
  {
    var added := PredEdges(a, preds);
    forall u, v ensures (u, v) in added <==> v == a && u in preds {
      if u in preds && v == a {
        var k :| 0 <= k < |preds| && preds[k] == u;
        assert added[k] == (u, v);
      }
    }
  }

  /** The build loop adds exactly one edge per listed predecessor. */
  lemma {:induction false} EdgesAfterMembers(acc: seq<Edge>, order: seq<Name>, records: map<Name, Activity>)
    ensures Distinct(acc) ==> Distinct(EdgesAfter(acc, order, records))
    ensures forall u, v :: (u, v) in EdgesAfter(acc, order, records) <==>
      (u, v) in acc || (v in order && u in PredsOf(records, v))
    decreases |order|
  {
    if order != [] {
      var a := order[0];
      PredEdgesMembers(a, PredsOf(records, a));
      EdgesAfterMembers(AppendAll(acc, PredEdges(a, PredsOf(records, a))), order[1..], records);
      assert forall v :: v in order <==> v == a || v in order[1..];
    }
  }

  /** Graph nodes are the activity names together with every name used as
      a predecessor, each once; a predecessor with no record is a node too. */
  lemma GraphNodeSet(store: Store)
    requires store.Valid()
    ensures Distinct(NodesAfter([], store.order, store.records))
    ensures forall n :: n in NodesAfter([], store.order, store.records) <==>
      n in store.records || exists a :: a in store.records && n in store.records[a].predecessors
  {
    NodesAfterMembers([], store.order, store.records);
    assert forall n :: n in NodesAfter([], store.order, store.records) <==> n in Mentioned(store.order, store.records);
    MentionedMembers(store.order, store.records);
    ListedPredecessors(store);
  }

  /** Over a valid store, the predecessors named along `order` are those
      of the records. */
  lemma ListedPredecessors(store: Store)
    requires store.Valid()
    ensures forall n, a :: a in store.order && n in PredsOf(store.records, a) ==>
                           a in store.records && n in store.records[a].predecessors
    ensures forall n, a :: a in store.records && n in store.records[a].predecessors ==>
                           a in store.order && n in PredsOf(store.records, a)
  {
  }

  /** Every edge runs from a predecessor name to the activity that lists it,
      and every listed predecessor gives one. */
  lemma GraphEdgeSet(store: Store)
    requires store.Valid()
    ensures Distinct(EdgesAfter([], store.order, store.records))
    ensures forall u, v :: (u, v) in EdgesAfter([], store.order, store.records) <==>
      v in store.records && u in store.records[v].predecessors
  {
    EdgesAfterMembers([], store.order, store.records);
  }

  /** networkx's `DiGraph` restricted to what the schedule uses: the node
      list in insertion order, the edge list in insertion order (an edge is
      recorded once), and two node attributes kept as partial maps, a node
      without an entry having no such attribute. */
  class DiGraph {
    var nodes: seq<Name>
    var edges: seq<Edge>
    var duration: map<Name, real>
    var variance: map<Name, real>

    ghost predicate Valid()
      reads this
    {
      && Distinct(nodes) && Distinct(edges)
      && (forall e :: e in edges ==> e.0 in nodes && e.1 in nodes)
      && (forall n :: n in duration ==> n in nodes)
      && (forall n :: n in variance ==> n in nodes)
    }

    /** `nx.DiGraph()`: the empty graph. */
    constructor ()
      ensures Valid()
      ensures nodes == [] && edges == [] && duration == map[] && variance == map[]
    {
      nodes, edges := [], [];
      duration, variance := map[], map[];
    }

    /** `add_node(n, duration=d, variance=v)`: adds n if it is new and sets
        both attributes, replacing earlier values. */
    method AddNode(n: Name, d: real, v: real)
      requires Valid()
      modifies this
      ensures Valid()
      ensures nodes == AppendNew(old(nodes), n) && edges == old(edges)
      ensures duration == old(duration)[n := d] && variance == old(variance)[n := v]
    {
      nodes := AppendNew(nodes, n);
      duration := duration[n := d];
      variance := variance[n := v];
    }

    /** `add_edge(u, v)`: adds u and then v if they are new, without
        attributes, and the edge unless it is present already. */
    method AddEdge(u: Name, v: Name)
      requires Valid()
      modifies this
      ensures Valid()
      ensures nodes == AppendNew(AppendNew(old(nodes), u), v)
      ensures edges == AppendNew(old(edges), (u, v))
      ensures duration == old(duration) && variance == old(variance)
    {
      nodes := AppendNew(AppendNew(nodes, u), v);
      edges := AppendNew(edges, (u, v));
    }

    /** The loop over `G.nodes` that gives every node lacking an attribute
        the value 0 for it. */
    method FillDefaults()
      requires Valid()
      modifies this
      ensures Valid()
      ensures nodes == old(nodes) && edges == old(edges)
      ensures forall n :: n in duration <==> n in nodes
      ensures forall n :: n in variance <==> n in nodes
      ensures forall n :: n in nodes ==> duration[n] == (if n in old(duration) then old(duration)[n] else 0.0)
      ensures forall n :: n in nodes ==> variance[n] == (if n in old(variance) then old(variance)[n] else 0.0)
    {
      var i := 0;
      while i < |nodes|
        invariant 0 <= i <= |nodes|
        invariant Valid()
        invariant nodes == old(nodes) && edges == old(edges)
        invariant forall n :: n in duration <==> n in old(duration) || n in nodes[..i]
        invariant forall n :: n in variance <==> n in old(variance) || n in nodes[..i]
        invariant forall n :: n in duration ==> duration[n] == (if n in old(duration) then old(duration)[n] else 0.0)
        invariant forall n :: n in variance ==> variance[n] == (if n in old(variance) then old(variance)[n] else 0.0)
      {
        var node := nodes[i];
        if node !in duration {
          duration := duration[node := 0.0];
        }
        if node !in variance {
          variance := variance[node := 0.0];
        }
        assert nodes[..i + 1] == nodes[..i] + [node];
        i := i + 1;
      }
      assert nodes[..i] == nodes;
    }
  }

  /** One iteration of the build loop (lines 52-54): the activity's node
      with its attributes, then one edge per listed predecessor. */
  method AddActivity(g: DiGraph, activity: Name, preds: seq<Name>, d: real, v: real)
    requires g.Valid()
    modifies g
    ensures g.Valid()
    ensures g.nodes == AppendAll(AppendNew(old(g.nodes), activity), preds)
    ensures g.edges == AppendAll(old(g.edges), PredEdges(activity, preds))
    ensures g.duration == old(g.duration)[activity := d]
    ensures g.variance == old(g.variance)[activity := v]
  {
    g.AddNode(activity, d, v);
    ghost var nodes0, edges0 := g.nodes, g.edges;
    var j := 0;
    while j < |preds|
      invariant 0 <= j <= |preds|
      invariant g.Valid()
      invariant activity in g.nodes
      invariant AppendAll(g.nodes, preds[j..]) == AppendAll(nodes0, preds)
      invariant AppendAll(g.edges, PredEdges(activity, preds[j..])) == AppendAll(edges0, PredEdges(activity, preds))
      invariant g.duration == old(g.duration)[activity := d]
      invariant g.variance == old(g.variance)[activity := v]
    {
      assert preds[j..][1..] == preds[j + 1..];
      assert PredEdges(activity, preds[j..])[1..] == PredEdges(activity, preds[j + 1..]);
      g.AddEdge(preds[j], activity);
      j := j + 1;
    }
  }

  /** An attribute map after the build loop has set it, from `values`, for
      each activity in `order`. */
  function AttrsAfter(acc: map<Name, real>, order: seq<Name>, values: map<Name, real>): map<Name, real>
    decreases |order|
  {
    if order == [] then acc
    else AttrsAfter(if order[0] in values then acc[order[0] := values[order[0]]] else acc, order[1..], values)
  }

  /** Setting the attribute of every name in `order` gives it the value from
      `values` and leaves every other entry alone. */
  lemma {:induction false} AttrsAfterEntries(acc: map<Name, real>, order: seq<Name>, values: map<Name, real>)
    requires forall a :: a in order ==> a in values
    ensures forall n :: n in AttrsAfter(acc, order, values) <==> n in acc || n in order
    ensures forall n :: n in AttrsAfter(acc, order, values) ==>
      AttrsAfter(acc, order, values)[n] == if n in order then values[n] else acc[n]
    decreases |order|
  {
    if order != [] {
      AttrsAfterEntries(acc[order[0] := values[order[0]]], order[1..], values);
      assert forall v :: v in order <==> v == order[0] || v in order[1..];
    }
  }

  /** The durations (TE) and variances of the records. */
  function TeValues(est: map<Name, Estimate>): map<Name, real>
  {
    map n | n in est :: est[n].te
  }

  function VarianceValues(est: map<Name, Estimate>): map<Name, real>
  {
    map n | n in est :: est[n].variance
  }

  /** The build loop of lines 51-54 run on the empty graph: one node per
      activity, carrying its TE and variance, and one edge per listed
      predecessor; predecessor-only nodes have no attributes yet. */
  method AddActivities(g: DiGraph, store: Store, est: map<Name, Estimate>)
    requires store.Valid()
    requires est.Keys == store.records.Keys
    requires g.Valid() && g.nodes == [] && g.edges == [] && g.duration == map[] && g.variance == map[]
    modifies g
    ensures g.Valid()
    ensures g.nodes == NodesAfter([], store.order, store.records)
    ensures g.edges == EdgesAfter([], store.order, store.records)
    ensures g.duration == AttrsAfter(map[], store.order, TeValues(est))
    ensures g.variance == AttrsAfter(map[], store.order, VarianceValues(est))
  {
    var order, records := store.order, store.records;
    var i := 0;
    while i < |order|
      invariant 0 <= i <= |order|
      invariant g.Valid()
      invariant NodesAfter(g.nodes, order[i..], records) == NodesAfter([], order, records)
      invariant EdgesAfter(g.edges, order[i..], records) == EdgesAfter([], order, records)
      invariant AttrsAfter(g.duration, order[i..], TeValues(est)) == AttrsAfter(map[], order, TeValues(est))
      invariant AttrsAfter(g.variance, order[i..], VarianceValues(est)) == AttrsAfter(map[], order, VarianceValues(est))
    {
      var activity := order[i];
      assert order[i..][1..] == order[i + 1..];
      AddActivity(g, activity, records[activity].predecessors, est[activity].te, est[activity].variance);
      i := i + 1;
    }
  }

  /** Lines 48-63: a new graph gets a node per activity (with its TE and
      variance) and an edge per listed predecessor; then every node that
      only ever appeared as a predecessor gets duration and variance 0. */
  method BuildGraph(store: Store, est: map<Name, Estimate>) returns (g: DiGraph)
    requires store.Valid()
    requires est.Keys == store.records.Keys
    ensures fresh(g) && g.Valid()
    ensures g.nodes == NodesAfter([], store.order, store.records)
    ensures g.edges == EdgesAfter([], store.order, store.records)
    ensures forall n :: n in g.duration <==> n in g.nodes
    ensures forall n :: n in g.variance <==> n in g.nodes
    ensures forall n :: n in g.nodes ==> g.duration[n] == (if n in store.records then est[n].te else 0.0)
    ensures forall n :: n in g.nodes ==> g.variance[n] == (if n in store.records then est[n].variance else 0.0)
  {
    g := new DiGraph();
    AddActivities(g, store, est);
    AttrsAfterEntries(map[], store.order, TeValues(est));
    AttrsAfterEntries(map[], store.order, VarianceValues(est));
    g.FillDefaults();
  }
}
