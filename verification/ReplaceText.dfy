/**
 Replacement of one string by another as a function on texts: leftmost-first, rightmost-first, and the
 loop that `String::replace` runs when the replacement is the longer of the two. The loop searches the
 text it is rewriting, so it can meet characters it has just written; the exact condition under which it
 does not is proved here.
 */
module ReplaceText {

  predicate OccursAt(s: string, f: string, i: nat) {
    i + |f| <= |s| && s[i..i + |f|] == f
  }

  /** `strstr`: the first occurrence, or -1. */
  function First(s: string, f: string): (r: int)
    requires f != ""
    ensures -1 <= r && (r >= 0 ==> OccursAt(s, f, r))
    ensures forall i: nat | OccursAt(s, f, i) :: 0 <= r <= i
  {
    if |s| < |f| then -1
    else if s[..|f|] == f then 0
    else
      var r := First(s[1..], f);
      assert forall i: nat | OccursAt(s, f, i) :: i > 0 && OccursAt(s[1..], f, i - 1) by { Shifted(s, f); }
      assert r >= 0 ==> s[1..][r..r + |f|] == s[r + 1..r + 1 + |f|];
      if r < 0 then -1 else r + 1
  }

  lemma Shifted(s: string, f: string)
    requires f != "" && |f| <= |s| && s[..|f|] != f
    ensures forall i: nat | OccursAt(s, f, i) :: i > 0 && OccursAt(s[1..], f, i - 1)
  {
    forall i: nat | OccursAt(s, f, i)
      ensures i > 0 && OccursAt(s[1..], f, i - 1)
    {
      if i > 0 { assert s[1..][i - 1..i - 1 + |f|] == s[i..i + |f|]; }
    }
  }

  /** The last occurrence, or -1. */
  function Last(s: string, f: string): (r: int)
    requires f != ""
    ensures -1 <= r && (r >= 0 ==> OccursAt(s, f, r))
    ensures forall i: nat | OccursAt(s, f, i) :: i <= r
  {
    if |s| < |f| then -1
    else if s[|s| - |f|..] == f then |s| - |f|
    else
      assert forall i: nat | OccursAt(s, f, i) :: OccursAt(s[..|s| - 1], f, i) by { Shortened(s, f); }
      var r := Last(s[..|s| - 1], f);
      assert r >= 0 ==> s[..|s| - 1][r..r + |f|] == s[r..r + |f|];
      r
  }

  lemma Shortened(s: string, f: string)
    requires f != "" && |f| <= |s| && s[|s| - |f|..] != f
    ensures forall i: nat | OccursAt(s, f, i) :: OccursAt(s[..|s| - 1], f, i)
  {
    forall i: nat | OccursAt(s, f, i)
      ensures OccursAt(s[..|s| - 1], f, i)
    {
      assert i + |f| != |s| by { assert s[|s| - |f|..] == s[|s| - |f|..|s|]; }
      assert s[..|s| - 1][i..i + |f|] == s[i..i + |f|];
    }
  }

  /** Leftmost non-overlapping replacement. */
  function LeftReplace(s: string, f: string, r: string): string
    requires f != ""
    decreases |s|
  {
    var i := First(s, f);
    if i < 0 then s else s[..i] + r + LeftReplace(s[i + |f|..], f, r)
  }

  function LeftCount(s: string, f: string): nat
    requires f != ""
    decreases |s|
  {
    var i := First(s, f);
    if i < 0 then 0 else 1 + LeftCount(s[i + |f|..], f)
  }

  /** Rightmost non-overlapping replacement. */
  function RightReplace(s: string, f: string, r: string): string
    requires f != ""
    decreases |s|
  {
    var i := Last(s, f);
    if i < 0 then s else RightReplace(s[..i], f, r) + r + s[i + |f|..]
  }

  function RightCount(s: string, f: string): nat
    requires f != ""
    decreases |s|
  {
    var i := Last(s, f);
    if i < 0 then 0 else 1 + RightCount(s[..i], f)
  }

  // ---- lengths and counts ----------------------------------------------------------------------

  lemma {:induction false} LeftLength(s: string, f: string, r: string)
    requires f != ""
    ensures |LeftReplace(s, f, r)| == |s| + LeftCount(s, f) * (|r| - |f|)
    decreases |s|
  {
    hide First, Last;
    var i := First(s, f);
    if i >= 0 {
      LeftLength(s[i + |f|..], f, r);
      Distribute(LeftCount(s[i + |f|..], f), |r| - |f|);
    }
  }

  lemma {:induction false} RightLength(s: string, f: string, r: string)
    requires f != ""
    ensures |RightReplace(s, f, r)| == |s| + RightCount(s, f) * (|r| - |f|)
    decreases |s|
  {
    hide First, Last;
    var i := Last(s, f);
    if i >= 0 {
      RightLength(s[..i], f, r);
      Distribute(RightCount(s[..i], f), |r| - |f|);
    }
  }

  lemma Distribute(n: int, d: int)
    ensures (1 + n) * d == d + n * d
  {
  }

  lemma OccursInSuffix(s: string, f: string, k: nat, i: nat)
    requires k <= |s|
    ensures OccursAt(s[k..], f, i) <==> OccursAt(s, f, k + i)
  {
    if k + i + |f| <= |s| { assert s[k..][i..i + |f|] == s[k + i..k + i + |f|]; }
  }

  lemma OccursInPrefix(s: string, f: string, k: nat, i: nat)
    requires k <= |s|
    ensures OccursAt(s[..k], f, i) <==> OccursAt(s, f, i) && i + |f| <= k
  {
    if i + |f| <= k { assert s[..k][i..i + |f|] == s[i..i + |f|]; }
  }

  /** `strstr` from position `p` finds the next occurrence in the whole text. */
  lemma NextFrom(s: string, f: string, p: nat)
    requires f != "" && p <= |s|
    ensures var k := First(s[p..], f);
            && (k >= 0 ==> OccursAt(s, f, p + k))
            && forall i: nat | OccursAt(s, f, i) && p <= i :: 0 <= k && p + k <= i
  {
    hide First;
    var k := First(s[p..], f);
    if k >= 0 { OccursInSuffix(s, f, p, k); }
    forall i: nat | OccursAt(s, f, i) && p <= i
      ensures 0 <= k && p + k <= i
    {
      OccursInSuffix(s, f, p, i - p);
    }
  }

  /** The pieces the two scans go on with, when the first and the last occurrence do not overlap. */
  lemma Apart(s: string, f: string)
    requires f != "" && First(s, f) >= 0 && First(s, f) + |f| <= Last(s, f) <= |s|
    ensures First(s[..Last(s, f)], f) == First(s, f)
    ensures Last(s[First(s, f) + |f|..], f) == Last(s, f) - (First(s, f) + |f|)
  {
    hide First, Last, OccursAt;
    var a, i := First(s, f), Last(s, f);
    OccursInPrefix(s, f, i, a);
    var p := First(s[..i], f);
    OccursInPrefix(s, f, i, p);
    OccursInSuffix(s, f, a + |f|, i - (a + |f|));
    var q := Last(s[a + |f|..], f);
    OccursInSuffix(s, f, a + |f|, q);
  }

  /** And when they do: nothing is left on either side. */
  lemma Overlapping(s: string, f: string)
    requires f != "" && First(s, f) >= 0 && Last(s, f) < First(s, f) + |f| <= |s|
    ensures First(s[..Last(s, f)], f) == -1 && First(s[First(s, f) + |f|..], f) == -1
  {
    hide First, Last, OccursAt;
    var a, i := First(s, f), Last(s, f);
    var p, q := First(s[..i], f), First(s[a + |f|..], f);
    if p >= 0 { OccursInPrefix(s, f, i, p); }
    if q >= 0 { OccursInSuffix(s, f, a + |f|, q); }
  }

  lemma FirstBeforeLast(s: string, f: string)
    requires f != "" && (First(s, f) >= 0 || Last(s, f) >= 0)
    ensures 0 <= First(s, f) <= Last(s, f) && Last(s, f) + |f| <= |s|
  {
    hide First, Last;
  }

  /** Taking occurrences greedily from the left counts one more than before the last occurrence. */
  lemma {:induction false} LeftCountAtLast(s: string, f: string)
    requires f != "" && Last(s, f) >= 0
    ensures LeftCount(s, f) == 1 + LeftCount(s[..Last(s, f)], f)
    decreases |s|
  {
    hide First, Last;
    var a, i := First(s, f), Last(s, f);
    FirstBeforeLast(s, f);
    if a + |f| > i {
      Overlapping(s, f);
    } else {
      Apart(s, f);
      var rest := s[a + |f|..];
      LeftCountAtLast(rest, f);
      assert rest[..i - (a + |f|)] == s[..i][a + |f|..];
    }
  }

  /** Greedy from the left and greedy from the right find equally many occurrences. */
  lemma {:induction false} CountsAgree(s: string, f: string)
    requires f != ""
    ensures LeftCount(s, f) == RightCount(s, f)
    decreases |s|
  {
    hide First, Last;
    var i := Last(s, f);
    if i >= 0 {
      LeftCountAtLast(s, f);
      CountsAgree(s[..i], f);
    }
  }

  // ---- the expanding loop ------------------------------------------------------------------------

  /** `lastIndexOf`: the last occurrence that starts at or before `index`. */
  function LastUpTo(s: string, f: string, index: int): (r: int)
    requires f != ""
    ensures -1 <= r && (r >= 0 ==> OccursAt(s, f, r) && r <= index)
    ensures forall i: nat | OccursAt(s, f, i) && i <= index :: i <= r
  {
    if index < 0 then -1
    else
      var k := if index + |f| < |s| then index + |f| else |s|;
      var r := Last(s[..k], f);
      assert forall i: nat :: OccursAt(s[..k], f, i) <==> OccursAt(s, f, i) && i + |f| <= k by {
        forall i: nat ensures OccursAt(s[..k], f, i) <==> OccursAt(s, f, i) && i + |f| <= k { OccursInPrefix(s, f, k, i); }
      }
      r
  }

  /** The loop of the expanding branch, on a text that can grow freely. */
  function ExpandFrom(text: string, f: string, r: string, index: int): string
    requires f != "" && -1 <= index
    decreases index
  {
    var j := LastUpTo(text, f, index);
    if j < 0 then text else ExpandFrom(text[..j] + r + text[j + |f|..], f, r, j - 1)
  }

  function Expand(s: string, f: string, r: string): string
    requires f != ""
  {
    ExpandFrom(s, f, r, |s| - 1)
  }

  /** No proper suffix of `f` starts `r`: an occurrence cannot run into a replacement. */
  predicate NoFeed(f: string, r: string) {
    forall m | 1 <= m < |f| && m <= |r| :: f[|f| - m..] != r[..m]
  }

  /** `f` cannot overlap itself. */
  predicate Unbordered(f: string) {
    NoFeed(f, f)
  }

  /** A first character of the replacement that is not in `f` is enough. */
  lemma FirstCharEnough(f: string, r: string)
    requires r != "" && r[0] !in f
    ensures NoFeed(f, r)
  {
    forall m | 1 <= m < |f| && m <= |r|
      ensures f[|f| - m..] != r[..m]
    {
      assert f[|f| - m..][0] in f && r[..m][0] == r[0];
    }
  }

  /** An occurrence that starts in `p` and ends in the replacement behind it makes a suffix of `f` start `r`. */
  lemma RunsInto(p: string, tail: string, f: string, r: string, j: nat)
    requires |f| <= |r| && r <= tail && OccursAt(p + tail, f, j) && j < |p| < j + |f|
    ensures var m := j + |f| - |p|; f[|f| - m..] == r[..m]
  {
    var m, text := j + |f| - |p|, p + tail;
    assert f[|f| - m..] == text[j..j + |f|][|f| - m..] == text[|p|..|p| + m];
    assert text[|p|..|p| + m] == tail[..m] == r[..m];
  }

  lemma StaysInside(p: string, tail: string, f: string, r: string, j: nat)
    requires 0 < |f| <= |r| && NoFeed(f, r) && (tail == "" || r <= tail)
    requires OccursAt(p + tail, f, j) && j < |p|
    ensures OccursAt(p, f, j)
  {
    if j + |f| > |p| {
      RunsInto(p, tail, f, r, j);
    } else {
      assert p[j..j + |f|] == (p + tail)[j..j + |f|];
    }
  }

  lemma SameLast(p: string, tail: string, f: string, r: string)
    requires 0 < |f| <= |r| && NoFeed(f, r) && (tail == "" || r <= tail)
    ensures LastUpTo(p + tail, f, |p| - 1) == Last(p, f)
  {
    hide First, Last;
    var j, i := LastUpTo(p + tail, f, |p| - 1), Last(p, f);
    if j >= 0 { StaysInside(p, tail, f, r, j); }
    if i >= 0 {
      assert (p + tail)[i..i + |f|] == p[i..i + |f|];
      assert OccursAt(p + tail, f, i);
    }
  }

  /** Without feeding, the loop replaces exactly the occurrences of the original text, from the right. */
  lemma {:induction false} ExpandIsRight(p: string, tail: string, f: string, r: string)
    requires 0 < |f| <= |r| && NoFeed(f, r) && (tail == "" || r <= tail)
    ensures ExpandFrom(p + tail, f, r, |p| - 1) == RightReplace(p, f, r) + tail
    decreases |p|
  {
    hide Last, LastUpTo, NoFeed;
    SameLast(p, tail, f, r);
    var i := Last(p, f);
    if i >= 0 {
      var rest := p[i + |f|..];
      var after := r + rest + tail;
      Spliced(p, tail, r, i, i + |f|);
      ExpandIsRight(p[..i], after, f, r);
      Reassociate(RightReplace(p[..i], f, r), r, rest, tail);
    }
  }

  lemma Spliced(p: string, tail: string, r: string, i: nat, k: nat)
    requires i <= k <= |p|
    ensures (p + tail)[..i] + r + (p + tail)[k..] == p[..i] + (r + p[k..] + tail)
  {
    assert (p + tail)[k..] == p[k..] + tail;
  }

  lemma Reassociate(a: string, b: string, c: string, d: string)
    ensures a + (b + c + d) == (a + b + c) + d
  {
  }

  /** The length the counting scan predicts. */
  function PredictedSize(s: string, f: string, r: string): int
    requires f != ""
  {
    |s| + LeftCount(s, f) * (|r| - |f|)
  }

  lemma RightSize(s: string, f: string, r: string)
    requires f != ""
    ensures |RightReplace(s, f, r)| == PredictedSize(s, f, r)
  {
    hide RightReplace, LeftCount, RightCount;
    RightLength(s, f, r);
    CountsAgree(s, f);
  }

  /** Without feeding, the text has exactly the predicted size. */
  lemma ExpandFits(s: string, f: string, r: string)
    requires 0 < |f| <= |r| && NoFeed(f, r)
    ensures Expand(s, f, r) == RightReplace(s, f, r) && |Expand(s, f, r)| == PredictedSize(s, f, r)
  {
    hide RightReplace, ExpandFrom, PredictedSize, NoFeed;
    ExpandIsRight(s, "", f, r);
    assert s + "" == s && RightReplace(s, f, r) + "" == RightReplace(s, f, r);
    RightSize(s, f, r);
  }

  // ---- and with feeding it does not ------------------------------------------------------------------

  lemma {:induction false} ExpandGrows(text: string, f: string, r: string, index: int)
    requires 0 < |f| <= |r| && -1 <= index
    ensures |ExpandFrom(text, f, r, index)| >= |text|
    ensures LastUpTo(text, f, index) >= 0 ==> |ExpandFrom(text, f, r, index)| >= |text| + |r| - |f|
    decreases index
  {
    hide LastUpTo;
    var j := LastUpTo(text, f, index);
    if j >= 0 {
      ExpandGrows(text[..j] + r + text[j + |f|..], f, r, j - 1);
    }
  }

  /** One turn of the loop, and the room it needs. */
  lemma ExpandTurn(text: string, f: string, r: string, index: int)
    requires 0 < |f| <= |r| && -1 <= index
    ensures var j := LastUpTo(text, f, index);
            if j < 0 then ExpandFrom(text, f, r, index) == text
            else
              && j + |f| <= |text| && |text| + |r| - |f| <= |ExpandFrom(text, f, r, index)|
              && ExpandFrom(text, f, r, index) == ExpandFrom(text[..j] + r + text[j + |f|..], f, r, j - 1)
  {
    hide LastUpTo;
    ExpandGrows(text, f, r, index);
  }

  lemma ExpandNone(text: string, f: string, r: string)
    requires f != ""
    ensures ExpandFrom(text, f, r, -1) == text
  {
  }

  lemma NothingToReplace(s: string, f: string, r: string)
    requires 0 < |f| < |r| && PredictedSize(s, f, r) == |s|
    ensures Expand(s, f, r) == s
  {
    hide Last, First, LeftCount, LastUpTo;
    CountsAgree(s, f);
    if LeftCount(s, f) > 0 { PositiveProduct(LeftCount(s, f), |r| - |f|); }
    assert Last(s, f) < 0;
  }

  lemma PositiveProduct(n: int, d: int)
    requires n > 0 && d > 0
    ensures n * d > 0
  {
  }

  /** The text in which two occurrences of `f` overlap by `m` characters, or one runs into a replacement. */
  function Overlap(f: string, m: nat): string
    requires m <= |f|
  {
    f[..|f| - m] + f
  }

  lemma OneOccurrence(s: string, f: string, i: nat)
    requires f != "" && OccursAt(s, f, i) && |s| < 2 * |f|
    ensures LeftCount(s, f) == 1 && First(s, f) >= 0
  {
    hide First;
    var a := First(s, f);
    assert First(s[a + |f|..], f) < 0;
  }

  lemma LastIsEnd(f: string, m: nat)
    requires f != "" && m <= |f|
    ensures Last(Overlap(f, m), f) == |f| - m && LastUpTo(Overlap(f, m), f, |Overlap(f, m)| - 1) == |f| - m
  {
    var s := Overlap(f, m);
    assert OccursAt(s, f, |f| - m);
  }

  /** The first turn of the loop on that text replaces its last `|f|` characters. */
  lemma AfterFirstTurn(f: string, r: string, m: nat)
    requires f != "" && m <= |f|
    ensures Expand(Overlap(f, m), f, r) == ExpandFrom(f[..|f| - m] + r, f, r, |f| - m - 1)
  {
    hide LastUpTo, Last;
    var s, k := Overlap(f, m), |f| - m;
    LastIsEnd(f, m);
    assert s[..k] + r + s[k + |f|..] == f[..k] + r;
  }

  /** A suffix of `f` that starts `r` makes the loop replace part of its own output. */
  lemma FeedOverflows(f: string, r: string, m: nat)
    requires 1 <= m < |f| < |r| && f[|f| - m..] == r[..m]
    ensures |Expand(Overlap(f, m), f, r)| > PredictedSize(Overlap(f, m), f, r)
  {
    hide LastUpTo, Last, First, LeftCount, ExpandFrom;
    var s, v := Overlap(f, m), f[..|f| - m];
    assert s[|f| - m..|f| - m + |f|] == f;
    OneOccurrence(s, f, |f| - m);
    AfterFirstTurn(f, r, m);
    assert (v + r)[0..|f|] == v + r[..m] == f;
    assert OccursAt(v + r, f, 0);
    ExpandGrows(v + r, f, r, |v| - 1);
  }

  lemma FeedWitness(f: string, r: string) returns (s: string)
    requires 0 < |f| < |r| && !NoFeed(f, r)
    ensures |Expand(s, f, r)| > PredictedSize(s, f, r)
    ensures Expand(s, f, r) != RightReplace(s, f, r) && Expand(s, f, r) != LeftReplace(s, f, r)
  {
    hide Expand, RightReplace, LeftReplace, LeftCount;
    var m :| 1 <= m < |f| && m <= |r| && f[|f| - m..] == r[..m];
    s := Overlap(f, m);
    FeedOverflows(f, r, m);
    RightSize(s, f, r);
    LeftLength(s, f, r);
  }

  /**
   The expanding branch keeps its own prediction, and replaces the occurrences of the original text and
   nothing else, for every text exactly when no proper suffix of `f` starts `r`.
   */
  lemma ExpandExactly(f: string, r: string)
    requires 0 < |f| < |r|
    ensures (forall s :: |Expand(s, f, r)| == PredictedSize(s, f, r)) <==> NoFeed(f, r)
    ensures (forall s :: Expand(s, f, r) == RightReplace(s, f, r)) <==> NoFeed(f, r)
  {
    hide Expand, RightReplace, PredictedSize, NoFeed;
    if NoFeed(f, r) {
      forall s ensures Expand(s, f, r) == RightReplace(s, f, r) && |Expand(s, f, r)| == PredictedSize(s, f, r) {
        ExpandFits(s, f, r);
      }
    } else {
      var s := FeedWitness(f, r);
    }
  }

  // ---- leftmost and rightmost --------------------------------------------------------------------------

  lemma LeftUnfold(s: string, f: string, r: string)
    requires f != "" && First(s, f) >= 0
    ensures First(s, f) + |f| <= |s|
    ensures LeftReplace(s, f, r) == s[..First(s, f)] + r + LeftReplace(s[First(s, f) + |f|..], f, r)
  {
    hide First;
  }

  lemma LeftNone(s: string, f: string, r: string)
    requires f != "" && First(s, f) < 0
    ensures LeftReplace(s, f, r) == s
  {
  }

  /** For an `f` that cannot overlap itself, leftmost replacement can be split at the last occurrence. */
  lemma {:induction false} LeftAtLast(s: string, f: string, r: string)
    requires f != "" && Unbordered(f) && Last(s, f) >= 0
    ensures var i := Last(s, f); i + |f| <= |s| && LeftReplace(s, f, r) == LeftReplace(s[..i], f, r) + r + s[i + |f|..]
    decreases |s|
  {
    hide First, Last, LeftReplace, Unbordered;
    FirstBeforeLast(s, f);
    var a, i := First(s, f), Last(s, f);
    LeftUnfold(s, f, r);
    if a == i {
      Overlapping(s, f);
      LeftNone(s[..i], f, r);
      LeftNone(s[i + |f|..], f, r);
    } else {
      NoSelfOverlap(s, f, a, i);
      Apart(s, f);
      LeftUnfold(s[..i], f, r);
      var rest, k := s[a + |f|..], i - (a + |f|);
      LeftAtLast(rest, f, r);
      assert rest[..k] == s[..i][a + |f|..] && rest[k + |f|..] == s[i + |f|..] && s[..i][..a] == s[..a];
      Reassociate(s[..a] + r, LeftReplace(rest[..k], f, r), r, s[i + |f|..]);
    }
  }

  lemma OverlapIsBorder(s: string, f: string, a: nat, i: nat)
    requires OccursAt(s, f, a) && OccursAt(s, f, i) && a < i < a + |f|
    ensures var m := a + |f| - i; f[|f| - m..] == f[..m]
  {
    var m := a + |f| - i;
    assert f[|f| - m..] == s[a..a + |f|][|f| - m..] == s[i..i + m];
    assert f[..m] == s[i..i + |f|][..m];
  }

  lemma NoSelfOverlap(s: string, f: string, a: nat, i: nat)
    requires f != "" && Unbordered(f) && OccursAt(s, f, a) && OccursAt(s, f, i) && a < i
    ensures a + |f| <= i
  {
    if a + |f| > i {
      OverlapIsBorder(s, f, a, i);
    }
  }

  lemma {:induction false} LeftIsRight(s: string, f: string, r: string)
    requires f != "" && Unbordered(f)
    ensures LeftReplace(s, f, r) == RightReplace(s, f, r)
    decreases |s|
  {
    hide First, Last;
    var i := Last(s, f);
    if i >= 0 {
      LeftAtLast(s, f, r);
      LeftIsRight(s[..i], f, r);
    }
  }

  /** A string that overlaps itself does so by at most half its length. */
  lemma {:induction false} ShortBorder(f: string, m: nat) returns (k: nat)
    requires 1 <= m < |f| && f[|f| - m..] == f[..m]
    ensures 1 <= k && 2 * k <= |f| && f[|f| - k..] == f[..k]
    decreases m
  {
    if 2 * m <= |f| {
      k := m;
    } else {
      var n := 2 * m - |f|;
      assert f[|f| - n..] == f[|f| - m..][m - n..];
      assert f[..m][m - n..] == f[m - n..m] == f[|f| - m..][..n];
      assert f[|f| - m..][..n] == f[..m][..n] == f[..n];
      k := ShortBorder(f, n);
    }
  }

  lemma ShortText(s: string, f: string, r: string)
    requires |s| < |f|
    ensures LeftReplace(s, f, r) == s && RightReplace(s, f, r) == s
  {
  }

  lemma LeftOnOverlap(f: string, r: string, m: nat)
    requires 1 <= m < |f| && f[|f| - m..] == f[..m]
    ensures LeftReplace(Overlap(f, m), f, r) == r + f[m..]
  {
    var s := Overlap(f, m);
    assert s[..|f|] == f[..|f| - m] + f[..m] == f;
    assert s[|f|..] == f[m..] && s[..0] == "";
    ShortText(f[m..], f, r);
  }

  lemma RightOnOverlap(f: string, r: string, m: nat)
    requires 1 <= m < |f|
    ensures RightReplace(Overlap(f, m), f, r) == f[..|f| - m] + r
  {
    hide Last;
    var s := Overlap(f, m);
    LastIsEnd(f, m);
    assert s[..|f| - m] == f[..|f| - m] && s[|f| - m + |f|..] == "";
    ShortText(f[..|f| - m], f, r);
    assert f[..|f| - m] + r + "" == f[..|f| - m] + r;
  }

  /** A self-overlapping `f` gives a text on which the two orders differ, unless `r` is fed. */
  lemma OrdersDiffer(f: string, r: string, m: nat)
    requires 1 <= m && 2 * m <= |f| < |r| && f[|f| - m..] == f[..m] && NoFeed(f, r)
    ensures LeftReplace(Overlap(f, m), f, r) != RightReplace(Overlap(f, m), f, r)
  {
    hide LeftReplace, RightReplace, Overlap;
    LeftOnOverlap(f, r, m);
    RightOnOverlap(f, r, m);
    assert (r + f[m..])[..m] == r[..m];
    assert (f[..|f| - m] + r)[..m] == f[..m];
  }

  /**
   The expanding branch computes the same function as the other two branches, leftmost replacement, for
   every text exactly when `f` cannot overlap itself and no proper suffix of `f` starts `r`.
   */
  lemma ExpandIsLeftExactly(f: string, r: string)
    requires 0 < |f| < |r|
    ensures (forall s :: Expand(s, f, r) == LeftReplace(s, f, r)) <==> NoFeed(f, r) && Unbordered(f)
  {
    hide Expand, LeftReplace, RightReplace, PredictedSize, NoFeed, Unbordered;
    if !NoFeed(f, r) {
      var s := FeedWitness(f, r);
    } else if !Unbordered(f) {
      var s := BorderWitness(f, r);
    } else {
      forall s ensures Expand(s, f, r) == LeftReplace(s, f, r) {
        ExpandFits(s, f, r);
        LeftIsRight(s, f, r);
      }
    }
  }

  lemma BorderWitness(f: string, r: string) returns (s: string)
    requires 0 < |f| < |r| && NoFeed(f, r) && !Unbordered(f)
    ensures Expand(s, f, r) != LeftReplace(s, f, r)
  {
    hide Expand, LeftReplace, RightReplace, PredictedSize;
    var m :| 1 <= m < |f| && m <= |f| && f[|f| - m..] == f[..m];
    var k := ShortBorder(f, m);
    OrdersDiffer(f, r, k);
    s := Overlap(f, k);
    ExpandFits(s, f, r);
  }
}
