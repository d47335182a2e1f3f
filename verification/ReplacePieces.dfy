/**
 Replacement without recursion on the text: the text is cut at occurrences of the searched string, and the
 pieces are joined again with the replacement.
 */
module ReplacePieces {
  import opened ReplaceText

  function Join(pieces: seq<string>, sep: string): string {
    if |pieces| == 0 then ""
    else if |pieces| == 1 then pieces[0]
    else pieces[0] + sep + Join(pieces[1..], sep)
  }

  lemma {:induction false} JoinLast(pieces: seq<string>, sep: string)
    requires |pieces| > 1
    ensures Join(pieces, sep) == Join(pieces[..|pieces| - 1], sep) + sep + pieces[|pieces| - 1]
  {
    var front, last, rest := pieces[..|pieces| - 1], pieces[|pieces| - 1], pieces[1..];
    if |pieces| > 2 {
      JoinLast(rest, sep);
      assert rest[..|rest| - 1] == front[1..] && rest[|rest| - 1] == last;
      assert pieces[0] + sep + (Join(front[1..], sep) + sep + last) == (pieces[0] + sep + Join(front[1..], sep)) + sep + last;
    }
  }

  ghost predicate Absent(p: string, f: string) {
    forall i: nat :: !OccursAt(p, f, i)
  }

  /** Behind `p`, the first occurrence is the one at its end. */
  predicate EndsFirst(p: string, f: string) {
    forall i: nat | i < |p| :: !OccursAt(p + f, f, i)
  }

  /** Before `p`, the last occurrence is the one at its start. */
  ghost predicate StartsLast(p: string, f: string) {
    forall i: nat | 0 < i :: !OccursAt(f + p, f, i)
  }

  /** Every cut is at the first occurrence from the end of the previous cut on, and none is left. */
  ghost predicate LeftPieces(s: string, f: string, pieces: seq<string>) {
    && pieces != [] && Join(pieces, f) == s
    && (forall k: nat | k < |pieces| - 1 :: EndsFirst(pieces[k], f))
    && Absent(pieces[|pieces| - 1], f)
  }

  /** Every cut is at the last occurrence up to the start of the next cut, and none is left. */
  ghost predicate RightPieces(s: string, f: string, pieces: seq<string>) {
    && pieces != [] && Join(pieces, f) == s
    && (forall k: nat | 0 < k < |pieces| :: StartsLast(pieces[k], f))
    && Absent(pieces[0], f)
  }

  lemma FirstIs(s: string, f: string, p: string, rest: string)
    requires f != "" && s == p + f + rest && EndsFirst(p, f)
    ensures First(s, f) == |p|
  {
    hide First;
    assert s[|p|..|p| + |f|] == f;
    assert OccursAt(s, f, |p|);
    var k := First(s, f);
    assert s[..|p| + |f|] == p + f;
    OccursInPrefix(s, f, |p| + |f|, k);
  }

  lemma LastIs(s: string, f: string, front: string, p: string)
    requires f != "" && s == front + f + p && StartsLast(p, f)
    ensures Last(s, f) == |front|
  {
    hide Last;
    assert s[|front|..|front| + |f|] == f;
    assert OccursAt(s, f, |front|);
    var k := Last(s, f);
    assert s[|front|..] == f + p;
    OccursInSuffix(s, f, |front|, k - |front|);
  }

  /** Cut from the left, the pieces joined with the replacement are the leftmost replacement. */
  lemma {:induction false} LeftJoined(s: string, f: string, r: string, pieces: seq<string>)
    requires f != "" && LeftPieces(s, f, pieces)
    ensures LeftReplace(s, f, r) == Join(pieces, r) && LeftCount(s, f) == |pieces| - 1
    decreases |pieces|
  {
    hide First;
    if |pieces| == 1 {
      assert First(s, f) < 0;
    } else {
      var p, tail := pieces[0], pieces[1..];
      var rest := Join(tail, f);
      FirstIs(s, f, p, rest);
      assert s[..|p|] == p && s[|p| + |f|..] == rest;
      forall k: nat | k < |tail| - 1 ensures EndsFirst(tail[k], f) { assert tail[k] == pieces[k + 1]; }
      assert tail[|tail| - 1] == pieces[|pieces| - 1];
      assert LeftPieces(rest, f, tail);
      LeftJoined(rest, f, r, tail);
    }
  }

  /** There is such a cut. */
  lemma {:induction false} LeftCut(s: string, f: string) returns (pieces: seq<string>)
    requires f != ""
    ensures LeftPieces(s, f, pieces)
    decreases |s|
  {
    hide First;
    var i := First(s, f);
    if i < 0 {
      pieces := [s];
    } else {
      var p, rest := s[..i], s[i + |f|..];
      var tail := LeftCut(rest, f);
      pieces := [p] + tail;
      assert pieces[1..] == tail && s == p + f + rest;
      forall j: nat | j < |p|
        ensures !OccursAt(p + f, f, j)
      {
        assert p + f == s[..i + |f|];
        OccursInPrefix(s, f, i + |f|, j);
      }
      assert EndsFirst(p, f);
      forall k: nat | k < |pieces| - 1
        ensures EndsFirst(pieces[k], f)
      {
        if k > 0 { assert pieces[k] == tail[k - 1]; }
      }
      assert pieces[|pieces| - 1] == tail[|tail| - 1];
    }
  }

  /** Cut from the right, they are the rightmost replacement. */
  lemma {:induction false} RightJoined(s: string, f: string, r: string, pieces: seq<string>)
    requires f != "" && RightPieces(s, f, pieces)
    ensures RightReplace(s, f, r) == Join(pieces, r) && RightCount(s, f) == |pieces| - 1
    decreases |pieces|
  {
    hide Last;
    if |pieces| == 1 {
      assert Last(s, f) < 0;
    } else {
      var n := |pieces| - 1;
      var p, front := pieces[n], pieces[..n];
      var before := Join(front, f);
      JoinLast(pieces, f);
      JoinLast(pieces, r);
      LastIs(s, f, before, p);
      assert s[..|before|] == before && s[|before| + |f|..] == p;
      forall k: nat | 0 < k < |front| ensures StartsLast(front[k], f) { assert front[k] == pieces[k]; }
      assert front[0] == pieces[0];
      assert RightPieces(before, f, front);
      RightJoined(before, f, r, front);
    }
  }

  lemma {:induction false} RightCut(s: string, f: string) returns (pieces: seq<string>)
    requires f != ""
    ensures RightPieces(s, f, pieces)
    decreases |s|
  {
    hide Last;
    var i := Last(s, f);
    if i < 0 {
      pieces := [s];
    } else {
      var before, p := s[..i], s[i + |f|..];
      var front := RightCut(before, f);
      pieces := front + [p];
      assert pieces[..|pieces| - 1] == front && s == before + f + p;
      JoinLast(pieces, f);
      forall j: nat | 0 < j
        ensures !OccursAt(f + p, f, j)
      {
        assert f + p == s[i..];
        OccursInSuffix(s, f, i, j);
      }
      assert StartsLast(p, f);
      forall k: nat | 0 < k < |pieces|
        ensures StartsLast(pieces[k], f)
      {
        if k < |pieces| - 1 { assert pieces[k] == front[k]; }
      }
    }
  }

  /** What `replace` computes, for a replacement that is not longer and for a longer one that does not feed itself. */
  lemma ReplaceMeans(s: string, f: string, r: string) returns (left: seq<string>, right: seq<string>)
    requires f != ""
    ensures LeftPieces(s, f, left) && LeftReplace(s, f, r) == Join(left, r)
    ensures RightPieces(s, f, right) && RightReplace(s, f, r) == Join(right, r) && |left| == |right|
    ensures |f| < |r| && NoFeed(f, r) ==> Expand(s, f, r) == Join(right, r)
  {
    left := LeftCut(s, f);
    right := RightCut(s, f);
    hide LeftPieces, RightPieces, Expand, NoFeed;
    LeftJoined(s, f, r, left);
    RightJoined(s, f, r, right);
    CountsAgree(s, f);
    if |f| < |r| && NoFeed(f, r) { ExpandFits(s, f, r); }
  }
}
