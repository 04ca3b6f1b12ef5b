/** The activity records read from the spreadsheet and the three-point
    estimates computed for each of them. */
module Activities {
  import opened Seqs

  type Name = string

  /** One record of the `activities` dict: the three estimates A, M, B and
      the parsed predecessor names. Nothing checks that o <= m <= p. */
  datatype Activity = Activity(optimistic: real, mostLikely: real, pessimistic: real,
                               predecessors: seq<Name>)

  /** The `activities` dict: its keys in insertion order, and the records. */
  datatype Store = Store(order: seq<Name>, records: map<Name, Activity>)
  {
    predicate Valid() {
      Distinct(order) && (forall n | n in records :: n in order) && (forall n | n in order :: n in records)
    }
  }

  /** The derived entries written into each record: TE and variance. */
  datatype Estimate = Estimate(te: real, variance: real)

  /** TE = (o + 4m + p) / 6, a weighted mean of the three estimates. */
  function ExpectedTime(o: real, m: real, p: real): (te: real)
    ensures o <= m <= p ==> o <= te <= p
    ensures o == m == p ==> te == o
  {
    (o + 4.0 * m + p) / 6.0
  }

  /** variance = ((p - o) / 6) squared: never negative, and zero when the
      optimistic and pessimistic estimates agree. */
  function Variance(o: real, p: real): (v: real)
    ensures v >= 0.0
    ensures o == p ==> v == 0.0
  {
    var d := (p - o) / 6.0;
    d * d
  }

  function EstimateOf(a: Activity): Estimate {
    Estimate(ExpectedTime(a.optimistic, a.mostLikely, a.pessimistic),
             Variance(a.optimistic, a.pessimistic))
  }

  /** The loop over `activities.items()` that writes TE and variance into
      every record; the written entries are returned as a map beside the
      records. */
  method ComputeEstimates(store: Store) returns (est: map<Name, Estimate>)
    requires store.Valid()
    ensures est.Keys == store.records.Keys
    ensures forall n :: n in est ==> est[n] == EstimateOf(store.records[n])
  {
    est := map[];
    var i := 0;
    while i < |store.order|
      invariant 0 <= i <= |store.order|
      invariant forall n :: n in est <==> n in store.order[..i]
      invariant forall n :: n in est ==> n in store.records && est[n] == EstimateOf(store.records[n])
    {
      var name := store.order[i];
      var a := store.records[name];
      var o, m, p := a.optimistic, a.mostLikely, a.pessimistic;
      var te := ExpectedTime(o, m, p);
      var varianceVal := Variance(o, p);
      est := est[name := Estimate(te, varianceVal)];
      assert store.order[..i + 1] == store.order[..i] + [name];
      i := i + 1;
    }
    assert store.order[..i] == store.order;
  }
}
