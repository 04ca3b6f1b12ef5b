/** The analysis of a chosen subset of activities: their expected times
    and the sample variance of those times, as `statistics.variance`
    computes it (exactly, so real arithmetic is faithful here). */
module SubsetStats {
  import opened Seqs
  import opened Activities

  /** The requested names that have a record, in request order, repeats kept. */
  function KnownNames(names: seq<Name>, est: map<Name, Estimate>): (r: seq<Name>)
    ensures forall n :: n in r <==> n in names && n in est
    ensures IsSubsequence(r, names)
    decreases |names|
  {
    if names == [] then []
    else
      var rest := KnownNames(names[1..], est);
      assert forall n :: n in names <==> n == names[0] || n in names[1..];
      if names[0] in est then [names[0]] + rest else rest
  }

  /** Every occurrence of a known name is kept, repeats included, and no
      occurrence of an unknown one. */
  lemma {:induction false} KnownNamesCounts(names: seq<Name>, est: map<Name, Estimate>)
    ensures forall n :: multiset(KnownNames(names, est))[n] == if n in est then multiset(names)[n] else 0
    decreases |names|
  {
    if names != [] {
      KnownNamesCounts(names[1..], est);
      assert names == [names[0]] + names[1..];
    }
  }

  /** Line 148: the TE of every requested activity that exists. */
  function SubsetTimes(names: seq<Name>, est: map<Name, Estimate>): (r: seq<real>)
    ensures |r| == |KnownNames(names, est)|
    ensures forall i :: 0 <= i < |r| ==> KnownNames(names, est)[i] in est && r[i] == est[KnownNames(names, est)[i]].te
    decreases |names|
  {
    if names == [] then []
    else if names[0] in est then [est[names[0]].te] + SubsetTimes(names[1..], est)
    else SubsetTimes(names[1..], est)
  }

  function Sum(s: seq<real>): real
    decreases |s|
  {
    if s == [] then 0.0 else s[0] + Sum(s[1..])
  }

  function Mean(s: seq<real>): real
    requires s != []
  {
    Sum(s) / (|s| as real)
  }

  /** The sum of the squared deviations of the values from c. */
  function SquaredDeviations(s: seq<real>, c: real): (r: real)
    ensures r >= 0.0
    decreases |s|
  {
    if s == [] then 0.0
    else
      var d := s[0] - c;
      d * d + SquaredDeviations(s[1..], c)
  }

  /** `statistics.variance`: squared deviations from the mean over n - 1. */
  function SampleVariance(s: seq<real>): (v: real)
    requires |s| >= 2
    ensures v >= 0.0
  {
    SquaredDeviations(s, Mean(s)) / ((|s| - 1) as real)
  }

  /** Lines 148-156: the sample variance of the found times when there are
      at least two of them, and 0 otherwise. */
  function SubsetVariance(names: seq<Name>, est: map<Name, Estimate>): (v: real)
    ensures v >= 0.0
    ensures |KnownNames(names, est)| <= 1 ==> v == 0.0
  {
    var times := SubsetTimes(names, est);
    if |times| > 1 then SampleVariance(times) else 0.0
  }

  /** Unknown names are ignored: asking only for the known names gives the
      same times, hence the same variance. */
  lemma {:induction false} KnownNamesSuffice(names: seq<Name>, est: map<Name, Estimate>)
    ensures SubsetTimes(KnownNames(names, est), est) == SubsetTimes(names, est)
    ensures SubsetVariance(KnownNames(names, est), est) == SubsetVariance(names, est)
    decreases |names|
  {
    if names != [] {
      KnownNamesSuffice(names[1..], est);
      if names[0] in est {
        var k := KnownNames(names, est);
        assert k[0] == names[0] && k[1..] == KnownNames(names[1..], est);
      }
    }
  }

  /** A request for an unknown name adds nothing. */
  lemma {:induction false} UnknownNameIgnored(names: seq<Name>, x: Name, est: map<Name, Estimate>)
    requires x !in est
    ensures SubsetTimes(names + [x], est) == SubsetTimes(names, est)
    ensures SubsetVariance(names + [x], est) == SubsetVariance(names, est)
    decreases |names|
  {
    if names != [] {
      assert (names + [x])[1..] == names[1..] + [x];
      UnknownNameIgnored(names[1..], x, est);
    } else {
      assert SubsetTimes([x], est) == SubsetTimes([], est);
    }
  }

  /** n equal values sum to n times the value. */
  lemma {:induction false} SumOfConstant(s: seq<real>, c: real)
    requires forall i :: 0 <= i < |s| ==> s[i] == c
    ensures Sum(s) == (|s| as real) * c
    decreases |s|
  {
    if s != [] {
      SumOfConstant(s[1..], c);
    }
  }

  /** Values all equal to c deviate from c by nothing. */
  lemma {:induction false} NoDeviationFromConstant(s: seq<real>, c: real)
    requires forall i :: 0 <= i < |s| ==> s[i] == c
    ensures SquaredDeviations(s, c) == 0.0
    decreases |s|
  {
    if s != [] {
      NoDeviationFromConstant(s[1..], c);
    }
  }

  /** Equal times have no spread: the sample variance of values that all
      equal c is 0. */
  lemma ConstantTimesHaveNoVariance(s: seq<real>, c: real)
    requires |s| >= 2
    requires forall i :: 0 <= i < |s| ==> s[i] == c
    ensures SampleVariance(s) == 0.0
  {
    SumOfConstant(s, c);
    assert Mean(s) == c;
    NoDeviationFromConstant(s, c);
  }
}
