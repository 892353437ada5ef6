/** The sentence splitter of `build_knowledge_base`:
    `re.split(r'(?<=[.!?])\s+(?=[A-Z])', text)`.

    A match of the pattern is a run of whitespace that follows one of `.`, `!`,
    `?` and is followed by an upper-case ASCII letter. Greedy `\s+` only
    succeeds on the whole run (a shorter run is followed by whitespace, not by a
    letter), and a run can only start a match at its first character (inside
    the run the previous character is whitespace). `re.split` removes each
    matched run and returns the pieces between them; the punctuation stays at
    the end of the left piece and the letter starts the right piece.

    Whitespace is the fixed ASCII set that Python's `\s` accepts below code
    point 128: tab, line feed, vertical tab, form feed, carriage return, the
    four separators 0x1C-0x1F and the space. */
module SentenceSplit {

  predicate IsTerminator(c: char)
  {
    c == '.' || c == '!' || c == '?'
  }

  predicate IsSpace(c: char)
  {
    (9 <= c as int <= 13) || (28 <= c as int <= 32)
  }

  predicate IsUpper(c: char)
  {
    'A' <= c <= 'Z'
  }

  /** The end of the whitespace run that starts at i (i itself when s[i] is
      not whitespace). */
  function RunEnd(s: string, i: nat): (j: nat)
    requires i <= |s|
    ensures i <= j <= |s|
    ensures forall k :: i <= k < j ==> IsSpace(s[k])
    ensures j < |s| ==> !IsSpace(s[j])
    decreases |s| - i
  {
    if i < |s| && IsSpace(s[i]) then RunEnd(s, i + 1) else i
  }

  /** The pattern matches at i: the regex engine, scanning left to right,
      finds a match starting here. */
  predicate CutAt(s: string, i: nat)
  {
    0 < i < |s| && IsTerminator(s[i - 1]) && IsSpace(s[i])
    && RunEnd(s, i) < |s| && IsUpper(s[RunEnd(s, i)])
  }

  /** Declarative reading of the pattern: s[i..j] is a non-empty whitespace
      run, s[i-1] ends a sentence and s[j] is an upper-case letter. */
  ghost predicate IsBoundary(s: string, i: int, j: int)
  {
    0 < i < j < |s| && IsTerminator(s[i - 1])
    && (forall k :: i <= k < j ==> IsSpace(s[k]))
    && IsUpper(s[j])
  }

  /** No sentence boundary anywhere inside p. */
  ghost predicate NoBoundary(p: string)
  {
    forall i, j :: !IsBoundary(p, i, j)
  }

  /** The scanner's test and the declarative boundary agree: a match starts at
      i exactly when some boundary starts at i, and it then ends where the
      whitespace run ends. */
  lemma CutAtIsBoundary(s: string, i: nat)
    requires i <= |s|
    ensures CutAt(s, i) <==> IsBoundary(s, i, RunEnd(s, i))
  {
  }

  lemma BoundaryEndsRun(s: string, i: nat, j: int)
    requires i <= |s|
    requires IsBoundary(s, i, j)
    ensures j == RunEnd(s, i) && CutAt(s, i)
  {
    var r := RunEnd(s, i);
    assert !IsSpace(s[j]);
  }

  /** Pieces and the whitespace runs removed between them:
      |pieces| == |seps| + 1. Python's `re.split` returns `pieces`. */
  datatype Pieces = Pieces(pieces: seq<string>, seps: seq<string>)

  /** The scan of `re.split`: the current piece started at `start`, positions
      start..i-1 have been tried without a match. */
  function SplitFrom(s: string, start: nat, i: nat): (r: Pieces)
    requires start <= i <= |s|
    ensures |r.pieces| == |r.seps| + 1
    decreases |s| - i
  {
    if i == |s| then Pieces([s[start..]], [])
    else if CutAt(s, i) then
      var j := RunEnd(s, i);
      var rest := SplitFrom(s, j, j);
      Pieces([s[start..i]] + rest.pieces, [s[i..j]] + rest.seps)
    else SplitFrom(s, start, i + 1)
  }

  function SplitWithSeparators(s: string): (r: Pieces)
    ensures |r.pieces| == |r.seps| + 1
  {
    SplitFrom(s, 0, 0)
  }

  /** `re.split(r'(?<=[.!?])\s+(?=[A-Z])', s)`. */
  function Split(s: string): (r: seq<string>)
    ensures |r| >= 1
  {
    SplitWithSeparators(s).pieces
  }

  /** pieces[0] + seps[0] + pieces[1] + ... + pieces[n]: the text with the
      removed runs put back. */
  function Interleave(pieces: seq<string>, seps: seq<string>): string
    requires |pieces| == |seps| + 1
  {
    if seps == [] then pieces[0]
    else pieces[0] + seps[0] + Interleave(pieces[1..], seps[1..])
  }

  /** A cut between `left` and `right` that removed `sep`: the left piece ends
      with sentence punctuation, the removed run is non-empty whitespace and
      the right piece starts with an upper-case letter. */
  predicate CutBetween(left: string, sep: string, right: string)
  {
    |left| > 0 && IsTerminator(left[|left| - 1])
    && |sep| > 0 && (forall k :: 0 <= k < |sep| ==> IsSpace(sep[k]))
    && |right| > 0 && IsUpper(right[0])
  }

  ghost predicate WellCut(pieces: seq<string>, seps: seq<string>)
    requires |pieces| == |seps| + 1
  {
    forall k :: 0 <= k < |seps| ==> CutBetween(pieces[k], seps[k], pieces[k + 1])
  }

  ghost predicate AllClean(pieces: seq<string>)
  {
    forall k :: 0 <= k < |pieces| ==> NoBoundary(pieces[k])
  }

  // ---------------------------------------------------------------------
  // The scan reproduces its input.

  lemma {:induction false} SplitFromJoins(s: string, start: nat, i: nat)
    requires start <= i <= |s|
    ensures Interleave(SplitFrom(s, start, i).pieces, SplitFrom(s, start, i).seps) == s[start..]
    decreases |s| - i
  {
    if i == |s| {
    } else if CutAt(s, i) {
      var j := RunEnd(s, i);
      SplitFromJoins(s, j, j);
      var r := SplitFrom(s, start, i);
      var rest := SplitFrom(s, j, j);
      assert r.pieces[1..] == rest.pieces && r.seps[1..] == rest.seps;
      assert s[start..] == s[start..i] + s[i..j] + s[j..];
    } else {
      SplitFromJoins(s, start, i + 1);
    }
  }

  /** Splitting loses nothing: putting the removed runs back between the
      pieces gives the text. */
  lemma SplitRoundTrip(s: string)
    ensures Interleave(SplitWithSeparators(s).pieces, SplitWithSeparators(s).seps) == s
  {
    SplitFromJoins(s, 0, 0);
  }

  // ---------------------------------------------------------------------
  // Every cut sits at a boundary.

  lemma {:induction false} SplitFromFirstPiece(s: string, start: nat, i: nat)
    requires start <= i <= |s|
    requires i == start ==> !CutAt(s, i)
    ensures var p := SplitFrom(s, start, i).pieces[0];
      start + |p| <= |s| && p == s[start..start + |p|] && (start < |s| ==> p != [])
    decreases |s| - i
  {
    if i == |s| {
    } else if CutAt(s, i) {
    } else {
      SplitFromFirstPiece(s, start, i + 1);
    }
  }

  lemma {:induction false} SplitFromCuts(s: string, start: nat, i: nat)
    requires start <= i <= |s|
    requires i == start ==> !CutAt(s, i)
    ensures WellCut(SplitFrom(s, start, i).pieces, SplitFrom(s, start, i).seps)
    decreases |s| - i
  {
    if i == |s| {
    } else if CutAt(s, i) {
      var j := RunEnd(s, i);
      assert !CutAt(s, j) by {
        assert !IsSpace(s[j]);
      }
      SplitFromCuts(s, j, j);
      SplitFromFirstPiece(s, j, j);
      var r := SplitFrom(s, start, i);
      var rest := SplitFrom(s, j, j);
      assert CutBetween(r.pieces[0], r.seps[0], r.pieces[1]) by {
        assert r.pieces[0] == s[start..i] && r.seps[0] == s[i..j];
        assert r.pieces[1] == rest.pieces[0];
        assert rest.pieces[0][0] == s[j];
      }
      forall k | 1 <= k < |r.seps|
        ensures CutBetween(r.pieces[k], r.seps[k], r.pieces[k + 1])
      {
        assert r.pieces[k] == rest.pieces[k - 1] && r.seps[k] == rest.seps[k - 1];
        assert r.pieces[k + 1] == rest.pieces[k];
      }
    } else {
      SplitFromCuts(s, start, i + 1);
    }
  }

  /** Every cut of the split sits immediately after `.`, `!` or `?`, removes a
      non-empty whitespace run, and sits immediately before an upper-case
      ASCII letter. */
  lemma SplitCutsAtBoundaries(s: string)
    ensures WellCut(SplitWithSeparators(s).pieces, SplitWithSeparators(s).seps)
  {
    SplitFromCuts(s, 0, 0);
  }

  // ---------------------------------------------------------------------
  // No piece contains a boundary.

  /** A boundary inside the slice s[a..b] is a match of the scanner in s. */
  lemma SliceBoundary(s: string, a: nat, b: nat, i: int, j: int)
    requires a <= b <= |s|
    requires IsBoundary(s[a..b], i, j)
    ensures CutAt(s, a + i)
  {
    var p := s[a..b];
    forall k | a + i <= k < a + j
      ensures IsSpace(s[k])
    {
      assert s[k] == p[k - a];
    }
    assert s[a + i - 1] == p[i - 1] && s[a + j] == p[j];
    assert IsBoundary(s, a + i, a + j);
    BoundaryEndsRun(s, a + i, a + j);
  }

  lemma NoCutNoBoundary(s: string, a: nat, b: nat)
    requires a <= b <= |s|
    requires forall k :: a < k < b ==> !CutAt(s, k)
    ensures NoBoundary(s[a..b])
  {
    forall i, j
      ensures !IsBoundary(s[a..b], i, j)
    {
      if IsBoundary(s[a..b], i, j) {
        SliceBoundary(s, a, b, i, j);
      }
    }
  }

  lemma {:induction false} SplitFromClean(s: string, start: nat, i: nat)
    requires start <= i <= |s|
    requires forall k :: start < k < i ==> !CutAt(s, k)
    ensures AllClean(SplitFrom(s, start, i).pieces)
    decreases |s| - i
  {
    if i == |s| {
      NoCutNoBoundary(s, start, |s|);
      assert s[start..|s|] == s[start..];
    } else if CutAt(s, i) {
      var j := RunEnd(s, i);
      NoCutNoBoundary(s, start, i);
      SplitFromClean(s, j, j);
      var r := SplitFrom(s, start, i);
      var rest := SplitFrom(s, j, j);
      forall k | 1 <= k < |r.pieces|
        ensures NoBoundary(r.pieces[k])
      {
        assert r.pieces[k] == rest.pieces[k - 1];
      }
    } else {
      SplitFromClean(s, start, i + 1);
    }
  }

  /** No piece of the split contains a further boundary: the split is as fine
      as the pattern allows. */
  lemma SplitPiecesHaveNoBoundary(s: string)
    ensures AllClean(Split(s))
  {
    SplitFromClean(s, 0, 0);
  }

  // ---------------------------------------------------------------------
  // The three properties above determine the split.

  /** Positions where the scanner finds no match are skipped over. */
  lemma {:induction false} SplitFromSkips(s: string, start: nat, i: nat, e: nat)
    requires start <= i <= e <= |s|
    requires forall k :: i <= k < e ==> !CutAt(s, k)
    ensures SplitFrom(s, start, i) == SplitFrom(s, start, e)
    decreases e - i
  {
    if i < e {
      SplitFromSkips(s, start, i + 1, e);
    }
  }

  /** If s[a..] is x followed by y, then x and y are the two slices of s. */
  lemma SliceApart(s: string, a: nat, x: string, y: string)
    requires a <= |s| && s[a..] == x + y
    ensures a + |x| <= |s| && s[a..a + |x|] == x && s[a + |x|..] == y
  {
    assert s[a..][..|x|] == x && s[a..][|x|..] == y;
  }

  /** The interleaving starts with the first piece. */
  lemma InterleaveHead(pieces: seq<string>, seps: seq<string>)
    requires |pieces| == |seps| + 1
    ensures pieces[0] <= Interleave(pieces, seps)
  {
    if seps != [] {
      assert Interleave(pieces, seps) == pieces[0] + (seps[0] + Interleave(pieces[1..], seps[1..]));
    }
  }

  /** Conversely to NoCutNoBoundary: when s[a..b] holds no boundary and ends
      with sentence punctuation (or at the end of s), the scanner finds no
      match strictly inside it. */
  lemma NoBoundaryNoCut(s: string, a: nat, b: nat)
    requires a <= b <= |s|
    requires NoBoundary(s[a..b])
    requires b < |s| ==> a < b && IsTerminator(s[b - 1])
    ensures forall k :: a < k < b ==> !CutAt(s, k)
  {
    var p := s[a..b];
    forall k | a < k < b
      ensures !CutAt(s, k)
    {
      var j := RunEnd(s, k);
      if CutAt(s, k) {
        assert j < b by {
          if b < |s| {
            assert s[b - 1] == p[b - 1 - a];
            assert !IsSpace(s[b - 1]);
          }
        }
        forall m | k - a <= m < j - a
          ensures IsSpace(p[m])
        {
          assert p[m] == s[a + m];
        }
        assert p[k - a - 1] == s[k - 1] && p[j - a] == s[j];
        assert IsBoundary(p, k - a, j - a);
      }
    }
  }

  /** Where the first piece and the first removed run of a decomposition
      sit in the text. */
  lemma FirstCutSlices(s: string, start: nat, pieces: seq<string>, seps: seq<string>)
    requires start <= |s|
    requires |pieces| == |seps| + 1 && seps != []
    requires Interleave(pieces, seps) == s[start..]
    requires pieces[1] != []
    ensures start + |pieces[0]| + |seps[0]| < |s|
    ensures s[start..start + |pieces[0]|] == pieces[0]
    ensures s[start + |pieces[0]|..start + |pieces[0]| + |seps[0]|] == seps[0]
    ensures s[start + |pieces[0]| + |seps[0]|..] == Interleave(pieces[1..], seps[1..])
    ensures s[start + |pieces[0]| + |seps[0]|] == pieces[1][0]
  {
    var p0, sep0 := pieces[0], seps[0];
    var e := start + |p0|;
    var rest := Interleave(pieces[1..], seps[1..]);
    SliceApart(s, start, p0, sep0 + rest);
    SliceApart(s, e, sep0, rest);
    InterleaveHead(pieces[1..], seps[1..]);
    assert pieces[1] <= rest;
  }

  /** The first cut of a well-cut decomposition is a match of the scanner,
      and no match lies before it. */
  lemma FirstCut(s: string, start: nat, e: nat, f: nat, p0: string, sep0: string, p1: string)
    requires start <= e <= f < |s|
    requires CutBetween(p0, sep0, p1) && NoBoundary(p0)
    requires s[start..e] == p0 && s[e..f] == sep0 && s[f] == p1[0]
    ensures CutAt(s, e) && RunEnd(s, e) == f && !CutAt(s, f)
    ensures forall k :: start < k < e ==> !CutAt(s, k)
  {
    assert IsTerminator(s[e - 1]) by {
      assert s[e - 1] == p0[|p0| - 1];
    }
    NoBoundaryNoCut(s, start, e);
    assert IsBoundary(s, e, f) by {
      forall k | e <= k < f
        ensures IsSpace(s[k])
      {
        assert s[k] == sep0[k - e];
      }
    }
    BoundaryEndsRun(s, e, f);
    assert !IsSpace(s[f]);
  }

  lemma TailWellCut(pieces: seq<string>, seps: seq<string>)
    requires |pieces| == |seps| + 1 && seps != []
    requires WellCut(pieces, seps) && AllClean(pieces)
    ensures |pieces[1..]| == |seps[1..]| + 1
    ensures WellCut(pieces[1..], seps[1..]) && AllClean(pieces[1..])
  {
    forall k | 0 <= k < |seps[1..]|
      ensures CutBetween(pieces[1..][k], seps[1..][k], pieces[1..][k + 1])
    {
      assert CutBetween(pieces[k + 1], seps[k + 1], pieces[k + 2]);
    }
    forall k | 0 <= k < |pieces[1..]|
      ensures NoBoundary(pieces[1..][k])
    {
      assert NoBoundary(pieces[k + 1]);
    }
  }

  lemma {:induction false} SplitFromUnique(s: string, start: nat, pieces: seq<string>, seps: seq<string>)
    requires start <= |s|
    requires !CutAt(s, start)
    requires |pieces| == |seps| + 1
    requires Interleave(pieces, seps) == s[start..]
    requires WellCut(pieces, seps) && AllClean(pieces)
    ensures SplitFrom(s, start, start) == Pieces(pieces, seps)
    decreases |seps|
  {
    assert NoBoundary(pieces[0]);
    if seps == [] {
      assert s[start..|s|] == pieces[0];
      NoBoundaryNoCut(s, start, |s|);
      SplitFromSkips(s, start, start, |s|);
    } else {
      assert CutBetween(pieces[0], seps[0], pieces[1]);
      FirstCutSlices(s, start, pieces, seps);
      var e := start + |pieces[0]|;
      var f := e + |seps[0]|;
      FirstCut(s, start, e, f, pieces[0], seps[0], pieces[1]);
      SplitFromSkips(s, start, start, e);
      TailWellCut(pieces, seps);
      SplitFromUnique(s, f, pieces[1..], seps[1..]);
      assert pieces == [pieces[0]] + pieces[1..];
      assert seps == [seps[0]] + seps[1..];
    }
  }

  /** The split is the only decomposition of the text with those three
      properties: any pieces and removed runs that rejoin to the text, are cut
      only at boundaries and contain no boundary are exactly what `re.split`
      returns. */
  lemma SplitUnique(s: string, pieces: seq<string>, seps: seq<string>)
    requires |pieces| == |seps| + 1
    requires Interleave(pieces, seps) == s
    requires WellCut(pieces, seps) && AllClean(pieces)
    ensures SplitWithSeparators(s) == Pieces(pieces, seps)
  {
    SplitFromUnique(s, 0, pieces, seps);
  }

  /** Every piece is a stretch of the text, so none is longer than it. */
  lemma {:induction false} InterleavePieceLength(pieces: seq<string>, seps: seq<string>, k: nat)
    requires |pieces| == |seps| + 1
    requires k < |pieces|
    ensures |pieces[k]| <= |Interleave(pieces, seps)|
    decreases |seps|
  {
    if k > 0 {
      InterleavePieceLength(pieces[1..], seps[1..], k - 1);
    }
  }

  lemma SplitPiecesNoLonger(s: string)
    ensures forall k :: 0 <= k < |Split(s)| ==> |Split(s)[k]| <= |s|
  {
    var r := SplitWithSeparators(s);
    SplitRoundTrip(s);
    forall k | 0 <= k < |r.pieces|
      ensures |r.pieces[k]| <= |s|
    {
      InterleavePieceLength(r.pieces, r.seps, k);
    }
  }
}
