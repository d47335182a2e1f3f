/**
 `Stream::findMulti`: a search for several strings at once that reads every character once and keeps no
 failure table. It is proved to be the naive search for the first occurrence.

 A stream is the finite sequence of characters that arrive before the read timeout.
 */
module StreamFind {

  predicate EndsWith(s: string, t: string) {
    |t| <= |s| && s[|s| - |t|..] == t
  }

  /** `k` is the length of the longest prefix of `t` that `seen` ends with. */
  ghost predicate Longest(t: string, seen: string, k: nat) {
    && k <= |t| && EndsWith(seen, t[..k])
    && forall j: nat | k < j <= |t| :: !EndsWith(seen, t[..j])
  }

  /** No prefix of `s` shorter than `n` characters ends with one of the targets. */
  ghost predicate NoneBefore(targets: seq<string>, s: string, n: nat)
    requires n <= |s| + 1
  {
    forall m: nat, i: nat | m < n && i < |targets| :: !EndsWith(s[..m], targets[i])
  }

  /**
   The naive search: `n` is the shortest prefix of `s` that ends with a target and `r` the lowest-numbered
   target it ends with, or `r` is -1 and all of `s` is read when no target occurs.
   */
  ghost predicate FirstOccurrence(targets: seq<string>, s: string, r: int, n: nat) {
    && n <= |s| && -1 <= r < |targets|
    && if r == -1 then n == |s| && NoneBefore(targets, s, |s| + 1)
       else
         && NoneBefore(targets, s, n) && EndsWith(s[..n], targets[r])
         && forall i | 0 <= i < r :: !EndsWith(s[..n], targets[i])
  }

  lemma FirstOccurrenceUnique(targets: seq<string>, s: string, r: int, n: nat, r': int, n': nat)
    requires FirstOccurrence(targets, s, r, n) && FirstOccurrence(targets, s, r', n')
    ensures r == r' && n == n'
  {
    if r != -1 { assert EndsWith(s[..n], targets[r]); }
    if r' != -1 { assert EndsWith(s[..n'], targets[r']); }
  }

  // ---- one character against one target -----------------------------------------------------

  lemma ExtendedBy(t: string, seen: string, c: char, j: nat)
    requires j < |t|
    ensures EndsWith(seen + [c], t[..j + 1]) <==> t[j] == c && EndsWith(seen, t[..j])
  {
    var s := seen + [c];
    if |seen| >= j {
      assert s[|s| - (j + 1)..] == seen[|seen| - j..] + [c];
      assert t[..j + 1] == t[..j] + [t[j]];
      if EndsWith(s, t[..j + 1]) {
        assert seen[|seen| - j..] == (seen[|seen| - j..] + [c])[..j];
        assert t[..j] == t[..j + 1][..j];
      }
    }
  }

  /** The matched part of the target stands for the input: shorter matches can be checked inside it. */
  lemma MatchInside(t: string, seen: string, k: nat, j: nat)
    requires j <= k <= |t| && EndsWith(seen, t[..k])
    ensures EndsWith(seen, t[..j]) <==> t[..j] == t[k - j..k]
  {
    assert seen[|seen| - j..] == seen[|seen| - k..][k - j..];
    assert t[..k][k - j..] == t[k - j..k];
  }

  /** A shorter match `j` of the matched prefix `t[..k]` goes on with `c`. */
  predicate Fallback(t: string, k: nat, c: char, j: nat)
    requires j < |t| && j <= k <= |t|
  {
    t[j] == c && t[..j] == t[k - j..k]
  }

  lemma FallbackIs(t: string, seen: string, k: nat, c: char, j: nat)
    requires j <= k < |t| && EndsWith(seen, t[..k])
    ensures Fallback(t, k, c, j) <==> EndsWith(seen + [c], t[..j + 1])
  {
    MatchInside(t, seen, k, j);
    ExtendedBy(t, seen, c, j);
  }

  /** The next index is one more than the greatest fallback, or 0 when there is none. */
  lemma NextLongest(t: string, seen: string, k: nat, c: char, next: nat)
    requires Longest(t, seen, k) && k < |t| && next <= k + 1
    requires next > 0 ==> Fallback(t, k, c, next - 1)
    requires forall j: nat | next <= j <= k :: !Fallback(t, k, c, j)
    ensures Longest(t, seen + [c], next)
  {
    if next > 0 {
      FallbackIs(t, seen, k, c, next - 1);
    }
    forall j: nat | next < j <= |t|
      ensures !EndsWith(seen + [c], t[..j])
    {
      if j - 1 <= k {
        FallbackIs(t, seen, k, c, j - 1);
      } else {
        ExtendedBy(t, seen, c, j - 1);
      }
    }
  }

  datatype MultiTarget = MultiTarget(str: string, index: nat)

  /** Do the first `n` characters of `str` recur `diff` further on? */
  method Recurs(str: string, n: nat, diff: nat) returns (same: bool)
    requires n + diff <= |str|
    ensures same <==> str[..n] == str[diff..n + diff]
  {
    var i := 0;
    while i < n && str[i] == str[i + diff]
      invariant i <= n && forall k | 0 <= k < i :: str[k] == str[k + diff]
    {
      i := i + 1;
    }
    if i < n {
      assert str[..n][i] != str[diff..n + diff][i];
    }
    same := i == n;
  }

  /** The inner loop over one target: extend the match by `c`, or walk back to a shorter one. */
  method Step(t: MultiTarget, c: char, ghost seen: string) returns (t': MultiTarget)
    requires Longest(t.str, seen, t.index) && t.index < |t.str|
    ensures t'.str == t.str && Longest(t.str, seen + [c], t'.index)
  {
    var str, index := t.str, t.index;
    assert str[..index] == str[index - index..index];
    if c == str[index] {
      index := index + 1;
    } else if index != 0 {
      var origIndex := index;
      var done := false;
      while index != 0 && !done
        invariant index <= origIndex
        invariant done ==> 0 < index && Fallback(str, origIndex, c, index - 1)
        invariant forall j: nat | index <= j <= origIndex :: !Fallback(str, origIndex, c, j)
        decreases !done, index
      {
        index := index - 1;
        if c == str[index] {
          var same := Recurs(str, index, origIndex - index);
          if same {
            index := index + 1;
            done := true;
          }
        }
      }
    }
    t' := MultiTarget(str, index);
    NextLongest(str, seen, t.index, c, index);
  }

  lemma FullMatch(t: string, seen: string, k: nat)
    requires Longest(t, seen, k)
    ensures k <= |t| && (k == |t| <==> EndsWith(seen, t))
  {
    assert t[..|t|] == t;
  }

  datatype Option<T> = None | Some(value: T)

  ghost function Strings(targets: seq<MultiTarget>): (s: seq<string>)
    ensures |s| == |targets| && forall k | 0 <= k < |s| :: s[k] == targets[k].str
  {
    seq(|targets|, k requires 0 <= k < |targets| => targets[k].str)
  }

  /** The target's index is the longest match so far, and not yet a full one. */
  ghost predicate Tracking(t: MultiTarget, str: string, seen: string) {
    t.str == str && Longest(str, seen, t.index) && t.index < |str|
  }

  ghost predicate AllTracking(targets: seq<MultiTarget>, strs: seq<string>, seen: string) {
    |targets| == |strs| && forall k | 0 <= k < |targets| :: Tracking(targets[k], strs[k], seen)
  }

  lemma Untouched(targets: seq<MultiTarget>, strs: seq<string>)
    requires strs == Strings(targets) && forall k | 0 <= k < |targets| :: targets[k].index == 0 && strs[k] != ""
    ensures AllTracking(targets, strs, "") && NoneBefore(strs, "", 1)
    ensures forall i | 0 <= i < |strs| :: !EndsWith("", strs[i])
  {
  }

  /** One character against every target, in order, up to the first that is complete. */
  method Feed(targets: array<MultiTarget>, c: char, ghost strs: seq<string>, ghost seen: string) returns (r: int)
    requires AllTracking(targets[..], strs, seen)
    modifies targets
    ensures -1 <= r < |strs|
    ensures forall i | 0 <= i < (if r == -1 then |strs| else r) :: !EndsWith(seen + [c], strs[i])
    ensures r == -1 ==> AllTracking(targets[..], strs, seen + [c])
    ensures r >= 0 ==> EndsWith(seen + [c], strs[r])
  {
    hide Longest, EndsWith;
    for t := 0 to targets.Length
      invariant forall k | 0 <= k < t :: Tracking(targets[k], strs[k], seen + [c]) && !EndsWith(seen + [c], strs[k])
      invariant forall k | t <= k < targets.Length :: Tracking(targets[k], strs[k], seen)
    {
      var next := Step(targets[t], c, seen);
      targets[t] := next;
      FullMatch(strs[t], seen + [c], next.index);
      if next.index == |next.str| {
        return t;
      }
    }
    return -1;
  }

  // ---- the stream ----------------------------------------------------------------------------

  class Stream {
    var input: string   // the characters still to arrive before a timeout

    method TimedRead() returns (c: int)
      modifies this
      ensures old(input) == [] ==> c == -1 && input == []
      ensures old(input) != [] ==> c == old(input)[0] as int && input == old(input)[1..]
    {
      if input == [] {
        return -1;
      }
      c := input[0] as int;
      input := input[1..];
    }

    /** The search stops exactly at the first occurrence. */
    method FindMulti(targets: array<MultiTarget>) returns (r: int)
      requires forall k | 0 <= k < targets.Length :: targets[k].index == 0
      modifies this, targets
      ensures |input| <= |old(input)| && input == old(input)[|old(input)| - |input|..]
      ensures FirstOccurrence(Strings(old(targets[..])), old(input), r, |old(input)| - |input|)
    {
      ghost var s, strs := input, Strings(targets[..]);
      for i := 0 to targets.Length
        invariant forall k | 0 <= k < i :: strs[k] != ""
      {
        if |targets[i].str| == 0 {
          return i;
        }
      }
      ghost var n := 0;
      assert s[..0] == "";
      hide Longest, EndsWith, Tracking, AllTracking;
      Untouched(targets[..], strs);
      while true
        invariant n <= |s| && input == s[n..]
        invariant NoneBefore(strs, s, n + 1)
        invariant AllTracking(targets[..], strs, s[..n])
        decreases |input|
      {
        var c := TimedRead();
        if c < 0 {
          return -1;
        }
        ghost var seen := s[..n];
        assert s[..n + 1] == seen + [c as char];
        r := Feed(targets, c as char, strs, seen);
        if r >= 0 {
          return;
        }
        n := n + 1;
      }
    }

    /** As `find`, but the search also ends when the terminator has been read. */
    method FindUntil(target: string, terminator: Option<string>) returns (found: bool)
      modifies this
      ensures found <==> FoundFirst(target, terminator, old(input))
      ensures |input| <= |old(input)| && input == old(input)[|old(input)| - |input|..]
      ensures StopsAt(Searched(target, terminator), old(input), |old(input)| - |input|)
    {
      hide FirstOccurrence, FoundFirst;
      ghost var s := input;
      if terminator.None? {
        var t := new MultiTarget[1] [MultiTarget(target, 0)];
        assert t[..] == [MultiTarget(target, 0)];
        var r := FindMulti(t);
        assert Strings([MultiTarget(target, 0)]) == [target];
        FoundAlone(target, s, r, |s| - |input|);
        assert StopsAt([target], s, |s| - |input|);
        return r == 0;
      } else {
        var t := new MultiTarget[2] [MultiTarget(target, 0), MultiTarget(terminator.value, 0)];
        assert t[..] == [MultiTarget(target, 0), MultiTarget(terminator.value, 0)];
        var r := FindMulti(t);
        assert Strings([MultiTarget(target, 0), MultiTarget(terminator.value, 0)]) == [target, terminator.value];
        FoundBefore(target, terminator.value, s, r, |s| - |input|);
        assert StopsAt([target, terminator.value], s, |s| - |input|);
        return r == 0;
      }
    }
  }

  function Searched(target: string, terminator: Option<string>): seq<string> {
    if terminator.None? then [target] else [target, terminator.value]
  }

  ghost predicate StopsAt(targets: seq<string>, s: string, n: nat) {
    exists r :: FirstOccurrence(targets, s, r, n)
  }

  /** Some prefix of `s` ends with the target, and no shorter one ends with the terminator. */
  ghost predicate FoundFirst(target: string, terminator: Option<string>, s: string) {
    exists n: nat :: n <= |s| && EndsWith(s[..n], target) && (terminator.Some? ==> NoneBefore([terminator.value], s, n))
  }

  lemma FoundAlone(target: string, s: string, r: int, n: nat)
    requires FirstOccurrence([target], s, r, n)
    ensures r == 0 <==> FoundFirst(target, None, s)
  {
    var ts := [target];
    assert ts[0] == target;
  }

  lemma FoundBefore(target: string, terminator: string, s: string, r: int, n: nat)
    requires FirstOccurrence([target, terminator], s, r, n)
    ensures r == 0 <==> FoundFirst(target, Some(terminator), s)
  {
    var ts := [target, terminator];
    assert ts[0] == target && ts[1] == terminator;
    if r != 0 {
      forall m: nat | m <= |s| && EndsWith(s[..m], target)
        ensures !NoneBefore([terminator], s, m)
      {
        assert r == 1 && n < m && EndsWith(s[..n], ts[1]);
        assert [terminator][0] == terminator;
      }
    } else {
      assert EndsWith(s[..n], target);
      forall k: nat, i: nat | k < n && i < 1
        ensures !EndsWith(s[..k], [terminator][i])
      {
        assert !EndsWith(s[..k], ts[1]);
      }
    }
  }
}
