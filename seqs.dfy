/** Small facts about sequences used as ordered, duplicate-free collections:
    the insertion-ordered keys of a Python dict or the node list of a graph. */
module Seqs {

  /** No element occurs twice. */
  predicate Distinct<T(==)>(s: seq<T>) {
    forall i, j :: 0 <= i < j < |s| ==> s[i] != s[j]
  }

  /** Appends x unless it is already present: how a dict or a graph records a new key. */
  function AppendNew<T(==,!new)>(s: seq<T>, x: T): (r: seq<T>)
    ensures x in r
    ensures forall y :: y in r <==> y in s || y == x
    ensures Distinct(s) ==> Distinct(r)
    ensures |s| <= |r| <= |s| + 1
    ensures r[..|s|] == s
  {
    if x in s then s else s + [x]
  }

  /** AppendNew of every element of xs, left to right. */
  function AppendAll<T(==,!new)>(s: seq<T>, xs: seq<T>): (r: seq<T>)
    ensures forall y :: y in r <==> y in s || y in xs
    ensures Distinct(s) ==> Distinct(r)
    ensures |s| <= |r|
    ensures r[..|s|] == s
    decreases |xs|
  {
    if xs == [] then s
    else
      var r := AppendAll(AppendNew(s, xs[0]), xs[1..]);
      assert forall y :: y in xs <==> y == xs[0] || y in xs[1..];
      r
  }

  /** s without its element at position k. */
  function RemoveAt<T(==,!new)>(s: seq<T>, k: nat): (r: seq<T>)
    requires k < |s|
    ensures |r| == |s| - 1
    ensures Distinct(s) ==> Distinct(r) && forall y :: y in r <==> y in s && y != s[k]
  {
    var r := s[..k] + s[k + 1..];
    assert forall i :: 0 <= i < |r| ==> r[i] == if i < k then s[i] else s[i + 1];
    assert forall y :: y in s <==> y == s[k] || y in r by {
      assert s == s[..k] + [s[k]] + s[k + 1..];
    }
    r
  }

  /** a is obtained from b by deleting elements, the rest keeping their order. */
  predicate IsSubsequence<T(==)>(a: seq<T>, b: seq<T>)
    decreases |b|
  {
    if a == [] then true
    else if b == [] then false
    else if a[0] == b[0] then IsSubsequence(a[1..], b[1..])
    else IsSubsequence(a, b[1..])
  }

  /** A subsequence of the tail is a subsequence of the whole. */
  lemma {:induction false} SkipHeadSubsequence<T>(a: seq<T>, b: seq<T>)
    requires b != []
    requires IsSubsequence(a, b[1..])
    ensures IsSubsequence(a, b)
    decreases |b|, 0
  {
    if a != [] && a[0] == b[0] {
      TailSubsequence(a, b[1..]);
    }
  }

  /** Dropping the head of a non-empty subsequence keeps it a subsequence. */
  lemma {:induction false} TailSubsequence<T>(a: seq<T>, b: seq<T>)
    requires a != []
    requires IsSubsequence(a, b)
    ensures IsSubsequence(a[1..], b)
    decreases |b|, 1
  {
    if a[0] == b[0] {
      SkipHeadSubsequence(a[1..], b);
    } else {
      TailSubsequence(a, b[1..]);
      SkipHeadSubsequence(a[1..], b);
    }
  }
}
