/** The string handling of one spreadsheet row in `read_activity_data`:
    the activity name is stripped of surrounding whitespace, and the
    `Precedent` cell (already turned into text, so an empty cell reads
    "nan") is split on commas into a list of predecessor names. */
module PrecedentParsing {
  import opened Seqs

  /** Python's `str.isspace` for one character: the ASCII separators and
      the Unicode space and line-break characters. */
  predicate IsSpace(c: char) {
    c == ' ' || c == '\t' || c == '\n' || c == '\r' || c == '\U{000B}' || c == '\U{000C}'
    || ('\U{001C}' <= c <= '\U{001F}') || c == '\U{0085}' || c == '\U{00A0}' || c == '\U{1680}'
    || ('\U{2000}' <= c <= '\U{200A}') || c == '\U{2028}' || c == '\U{2029}'
    || c == '\U{202F}' || c == '\U{205F}' || c == '\U{3000}'
  }

  /** Neither starts nor ends with whitespace. */
  predicate IsStripped(s: string) {
    s == [] || (!IsSpace(s[0]) && !IsSpace(s[|s| - 1]))
  }

  /** Python's `lstrip()`: drops the leading whitespace and nothing else. */
  function StripLeft(s: string): (r: string)
    ensures |r| <= |s| && r == s[|s| - |r|..]
    ensures forall k :: 0 <= k < |s| - |r| ==> IsSpace(s[k])
    ensures r == [] || !IsSpace(r[0])
  {
    if s != [] && IsSpace(s[0]) then StripLeft(s[1..]) else s
  }

  /** Python's `rstrip()`: drops the trailing whitespace and nothing else. */
  function StripRight(s: string): (r: string)
    ensures |r| <= |s| && r == s[..|r|]
    ensures forall k :: |r| <= k < |s| ==> IsSpace(s[k])
    ensures r == [] || !IsSpace(r[|r| - 1])
  {
    if s != [] && IsSpace(s[|s| - 1]) then StripRight(s[..|s| - 1]) else s
  }

  /** Python's `strip()`: drops the whitespace at both ends. */
  function Strip(s: string): (r: string)
    ensures IsStripped(r)
    ensures |r| <= |s|
  {
    StripRight(StripLeft(s))
  }

  /** What Strip removes is whitespace, and only at the ends: its result
      is the infix s[i..i + |r|] with whitespace on both sides. */
  lemma StripIsTrimmedInfix(s: string)
    ensures var r, i := Strip(s), |s| - |StripLeft(s)|;
            && 0 <= i <= |s| - |r| && r == s[i..i + |r|]
            && (forall k :: 0 <= k < i ==> IsSpace(s[k]))
            && (forall k :: i + |r| <= k < |s| ==> IsSpace(s[k]))
  {
    var t := StripLeft(s);
    var r := StripRight(t);
    var i := |s| - |t|;
    SliceOfSuffix(s, i, |r|);
    TrailingSpaceShift(s, t, i, |r|);
  }

  lemma SliceOfSuffix(s: string, i: nat, n: nat)
    requires i + n <= |s|
    ensures s[i..][..n] == s[i..i + n]
  {
  }

  lemma TrailingSpaceShift(s: string, t: string, i: nat, n: nat)
    requires i <= |s| && t == s[i..] && n <= |t|
    requires forall k :: n <= k < |t| ==> IsSpace(t[k])
    ensures forall k :: i + n <= k < |s| ==> IsSpace(s[k])
  {
    forall k | i + n <= k < |s|
      ensures IsSpace(s[k])
    {
      assert s[k] == t[k - i];
    }
  }

  /** Stripping a stripped string changes nothing. */
  lemma StrippedIsFixed(s: string)
    requires IsStripped(s)
    ensures Strip(s) == s
  {
  }

  /** Strip is idempotent. */
  lemma StripIdempotent(s: string)
    ensures Strip(Strip(s)) == Strip(s)
  {
    StrippedIsFixed(Strip(s));
  }

  /** Strip gives the empty string exactly for all-whitespace input. */
  lemma StripEmptyIffAllSpace(s: string)
    ensures Strip(s) == [] <==> forall k :: 0 <= k < |s| ==> IsSpace(s[k])
  {
    var r := Strip(s);
    StripIsTrimmedInfix(s);
    var i := |s| - |StripLeft(s)|;
    if r != [] {
      assert r[0] == s[i] && !IsSpace(s[i]);
    }
  }

  /** Joins pieces with a comma between consecutive ones: Python's `','.join`. */
  function Join(pieces: seq<string>): string
    requires |pieces| >= 1
  {
    if |pieces| == 1 then pieces[0] else pieces[0] + "," + Join(pieces[1..])
  }

  /** Python's `s.split(',')`: the pieces between commas, one more piece
      than there are commas, empty pieces kept. */
  function Split(s: string): (r: seq<string>)
    ensures |r| >= 1
    ensures forall p :: p in r ==> ',' !in p
    ensures Join(r) == s
  {
    if s == [] then [""]
    else
      var rest := Split(s[1..]);
      if s[0] == ',' then
        assert Join([""] + rest) == "," + Join(rest);
        [""] + rest
      else
        var r := [[s[0]] + rest[0]] + rest[1..];
        assert r[1..] == rest[1..];
        assert Join(r) == [s[0]] + Join(rest) by {
          if |rest| > 1 {
            assert Join(r) == ([s[0]] + rest[0]) + "," + Join(rest[1..]);
            assert Join(rest) == rest[0] + "," + Join(rest[1..]);
          }
        }
        assert s == [s[0]] + s[1..];
        assert forall p :: p in r ==> p == [s[0]] + rest[0] || p in rest;
        r
  }

  /** Splitting text that starts with a comma-free prefix p. */
  lemma {:induction false} SplitAfterPrefix(p: string, t: string)
    requires ',' !in p
    ensures Split(p + t) == [p + Split(t)[0]] + Split(t)[1..]
  {
    if p != [] {
      assert (p + t)[1..] == p[1..] + t;
      SplitAfterPrefix(p[1..], t);
      assert [p[0]] + (p[1..] + Split(t)[0]) == p + Split(t)[0];
    } else {
      assert p + t == t;
      assert p + Split(t)[0] == Split(t)[0];
      assert Split(t) == [Split(t)[0]] + Split(t)[1..];
    }
  }

  /** Split inverts Join on comma-free pieces (Join(Split(s)) == s is part
      of Split's contract): the two are mutually inverse. */
  lemma {:induction false} SplitJoin(pieces: seq<string>)
    requires |pieces| >= 1
    requires forall p :: p in pieces ==> ',' !in p
    ensures Split(Join(pieces)) == pieces
  {
    if |pieces| == 1 {
      SplitAfterPrefix(pieces[0], "");
      assert pieces[0] + "" == pieces[0];
    } else {
      var t := Join(pieces[1..]);
      SplitJoin(pieces[1..]);
      assert pieces[0] + "," + t == pieces[0] + ("," + t);
      SplitAfterPrefix(pieces[0], "," + t);
      assert ("," + t)[1..] == t;
      assert Split("," + t) == [""] + Split(t);
      assert pieces[0] + "" == pieces[0];
      assert pieces == [pieces[0]] + pieces[1..];
    }
  }

  /** A predecessor name the list comprehension keeps: a non-empty piece
      that is not the text of a missing cell. */
  predicate IsKept(name: string) {
    name != "" && name != "nan"
  }

  /** The stripped pieces, in order. */
  function StripAll(pieces: seq<string>): (r: seq<string>)
    ensures |r| == |pieces|
    ensures forall k :: 0 <= k < |r| ==> r[k] == Strip(pieces[k])
  {
    if pieces == [] then [] else [Strip(pieces[0])] + StripAll(pieces[1..])
  }

  /** The comprehension `[p.strip() for p in pieces if p.strip() and p.strip() != 'nan']`. */
  function CleanPieces(pieces: seq<string>): (r: seq<string>)
    ensures forall x :: x in r ==> IsKept(x) && IsStripped(x)
    ensures forall x :: x in r <==> x in StripAll(pieces) && IsKept(x)
  {
    if pieces == [] then []
    else
      var t := Strip(pieces[0]);
      var rest := CleanPieces(pieces[1..]);
      var r := (if IsKept(t) then [t] else []) + rest;
      assert StripAll(pieces) == [t] + StripAll(pieces[1..]);
      r
  }

  /** The comprehension keeps the pieces in their left-to-right order. */
  lemma {:induction false} CleanPiecesInOrder(pieces: seq<string>)
    ensures IsSubsequence(CleanPieces(pieces), StripAll(pieces))
  {
    if pieces != [] {
      CleanPiecesInOrder(pieces[1..]);
      var t := Strip(pieces[0]);
      var all, rest := StripAll(pieces), CleanPieces(pieces[1..]);
      assert all == [t] + StripAll(pieces[1..]);
      assert all[1..] == StripAll(pieces[1..]);
      if IsKept(t) {
        var c := CleanPieces(pieces);
        assert c == [t] + rest;
        assert c[0] == all[0] && c[1..] == rest;
      } else {
        assert CleanPieces(pieces) == rest;
        SkipHeadSubsequence(rest, all);
      }
    }
  }

  /** The comprehension keeps every occurrence of a kept piece, repeats
      included, and no occurrence of any other. */
  lemma {:induction false} CleanPiecesCounts(pieces: seq<string>)
    ensures forall x :: multiset(CleanPieces(pieces))[x] == if IsKept(x) then multiset(StripAll(pieces))[x] else 0
  {
    if pieces != [] {
      CleanPiecesCounts(pieces[1..]);
      var t := Strip(pieces[0]);
      assert StripAll(pieces) == [t] + StripAll(pieces[1..]);
      assert CleanPieces(pieces) == (if IsKept(t) then [t] else []) + CleanPieces(pieces[1..]);
    }
  }

  /** The predecessor list of one row: line 16 then line 17 of read_activity_data. */
  function ParsePredecessors(cell: string): (r: seq<string>)
    ensures forall x :: x in r ==> IsKept(x) && IsStripped(x) && ',' !in x
    ensures forall x :: x in r <==> x in StripAll(Split(cell)) && IsKept(x)
    ensures forall x :: multiset(r)[x] == if IsKept(x) then multiset(StripAll(Split(cell)))[x] else 0
  {
    var pieces := Split(cell);
    CleanPiecesCounts(pieces);
    CleanPiecesCommaFree(pieces);
    CleanPieces(pieces)
  }

  /** Stripping a comma-free piece leaves it comma-free. */
  lemma StripKeepsCommaFree(p: string)
    requires ',' !in p
    ensures ',' !in Strip(p)
  {
    StripIsTrimmedInfix(p);
    var r, i := Strip(p), |p| - |StripLeft(p)|;
    forall k | 0 <= k < |r| ensures r[k] != ',' {
      assert r[k] == p[i + k];
    }
  }

  /** Stripping comma-free pieces leaves them comma-free. */
  lemma {:induction false} CleanPiecesCommaFree(pieces: seq<string>)
    requires forall p :: p in pieces ==> ',' !in p
    ensures forall x :: x in CleanPieces(pieces) ==> ',' !in x
  {
    if pieces != [] {
      StripKeepsCommaFree(pieces[0]);
      CleanPiecesCommaFree(pieces[1..]);
      var t := Strip(pieces[0]);
      assert CleanPieces(pieces) == (if IsKept(t) then [t] else []) + CleanPieces(pieces[1..]);
    }
  }

  /** A missing cell (read as "nan") and an empty cell both give no predecessors. */
  lemma MissingCellHasNoPredecessors()
    ensures ParsePredecessors("nan") == []
    ensures ParsePredecessors("") == []
  {
    assert Split("n") == ["n"];
    assert Split("an") == ["an"];
    assert Split("nan") == ["nan"];
    assert Strip("nan") == "nan" by { StrippedIsFixed("nan"); }
    assert Strip("") == "";
  }
}
