/**
 `String::replace` on the NUL-terminated character buffer, in place: overwriting, compacting from the left
 and expanding from the right, each proved against a function of module `ReplaceText`.
 */
module StringReplace {
  import opened ReplaceText

  const NUL := '\0'

  predicate NoNul(s: string) { NUL !in s }

  // ---- C library calls on a buffer ----------------------------------------------------------

  /** Does the string at `i` start with `pat`? The comparison never passes the terminator at `end`. */
  method StartsWith(a: array<char>, i: nat, pat: string, ghost end: nat) returns (yes: bool)
    requires i <= end < a.Length && a[end] == NUL && NoNul(a[i..end]) && NoNul(pat)
    ensures yes <==> i + |pat| <= end && a[i..i + |pat|] == pat
  {
    var k := 0;
    while k < |pat| && a[i + k] == pat[k]
      invariant k <= |pat| && i + k <= end
      invariant forall x | 0 <= x < k :: a[i + x] == pat[x]
    {
      assert pat[k] in pat;
      k := k + 1;
    }
    if k < |pat| && i + |pat| <= end {
      assert a[i..i + |pat|][k] != pat[k];
    }
    yes := k == |pat|;
  }

  /** `strstr` from position `from` of the string that ends at `end`. */
  method StrStr(a: array<char>, from: nat, pat: string, ghost end: nat) returns (j: int)
    requires from <= end < a.Length && a[end] == NUL && NoNul(a[from..end]) && NoNul(pat) && pat != ""
    ensures j == (var k := First(a[from..end], pat); if k < 0 then -1 else from + k)
  {
    hide First;
    ghost var t := a[from..end];
    var i := from;
    while a[i] != NUL
      invariant from <= i <= end
      invariant forall k: nat | k < i - from :: !OccursAt(t, pat, k)
      decreases end - i
    {
      SuffixOf(a[..], from, end, i, pat);
      var found := StartsWith(a, i, pat, end);
      if found {
        return i;
      }
      i := i + 1;
    }
    assert forall x | from <= x < end :: a[x] == t[x - from] && t[x - from] in t;
    return -1;
  }

  lemma SuffixOf(b: string, from: nat, end: nat, i: nat, pat: string)
    requires from <= i <= end <= |b|
    ensures NoNul(b[from..end]) ==> NoNul(b[i..end])
    ensures OccursAt(b[from..end], pat, i - from) <==> i + |pat| <= end && b[i..i + |pat|] == pat
  {
    var t, k := b[from..end], i - from;
    assert b[i..end] == t[k..];
    if i + |pat| <= end {
      var u, v := t[k..k + |pat|], b[i..i + |pat|];
      forall x | 0 <= x < |pat| ensures u[x] == v[x] {
        assert u[x] == t[k + x] == b[i + x];
      }
      assert u == v;
    }
  }

  /** `memcpy` within a buffer to a lower address, copying upwards. */
  method CopyDown(a: array<char>, dst: nat, src: nat, n: nat)
    requires dst <= src && src + n <= a.Length
    modifies a
    ensures a[..] == old(a[..])[..dst] + old(a[..])[src..src + n] + old(a[..])[dst + n..]
  {
    ghost var was := a[..];
    for k := 0 to n
      invariant forall x | 0 <= x < a.Length && !(dst <= x < dst + k) :: a[x] == was[x]
      invariant forall x | dst <= x < dst + k :: a[x] == was[x - dst + src]
    {
      a[dst + k] := a[src + k];
    }
  }

  /** `memmove` within a buffer to a higher address. */
  method CopyUp(a: array<char>, dst: nat, src: nat, n: nat)
    requires src <= dst && dst + n <= a.Length
    modifies a
    ensures a[..] == old(a[..])[..dst] + old(a[..])[src..src + n] + old(a[..])[dst + n..]
  {
    ghost var was := a[..];
    for k := n downto 0
      invariant forall x | 0 <= x < a.Length && !(dst + k <= x < dst + n) :: a[x] == was[x]
      invariant forall x | dst + k <= x < dst + n :: a[x] == was[x - dst + src]
    {
      a[dst + k] := a[src + k];
    }
  }

  /** `strcpy` within a buffer to a lower address: everything up to and including the terminator at `end`. */
  method StrCpyDown(a: array<char>, dst: nat, src: nat, ghost end: nat)
    requires dst <= src <= end < a.Length && a[end] == NUL && NoNul(a[src..end])
    modifies a
    ensures a[..] == old(a[..])[..dst] + old(a[..])[src..end + 1] + old(a[..])[dst + end + 1 - src..]
  {
    ghost var t := a[src..end];
    assert forall x | src <= x < end :: a[x] == t[x - src] && t[x - src] in t;
    var n := 0;
    while a[src + n] != NUL
      invariant src + n <= end
      decreases end - src - n
    {
      n := n + 1;
    }
    CopyDown(a, dst, src, n + 1);
  }

  /** `memcpy` from another string. */
  method CopyIn(a: array<char>, dst: nat, s: string)
    requires dst + |s| <= a.Length
    modifies a
    ensures a[..] == old(a[..])[..dst] + s + old(a[..])[dst + |s|..]
  {
    ghost var was := a[..];
    for k := 0 to |s|
      invariant forall x | 0 <= x < a.Length && !(dst <= x < dst + k) :: a[x] == was[x]
      invariant forall x | dst <= x < dst + k :: a[x] == s[x - dst]
    {
      a[dst + k] := s[k];
    }
  }

  /** With `rest` still to be read, `out` is the rewritten form of what came before it in `s`. */
  ghost predicate Rewritten(s: string, f: string, r: string, out: string, rest: string)
    requires f != ""
  {
    out + LeftReplace(rest, f, r) == LeftReplace(s, f, r)
  }

  lemma RewriteNext(s: string, f: string, r: string, out: string, rest: string)
    requires f != "" && Rewritten(s, f, r, out, rest) && First(rest, f) >= 0
    ensures var k := First(rest, f); k + |f| <= |rest| && Rewritten(s, f, r, out + rest[..k] + r, rest[k + |f|..])
  {
    hide First, LeftReplace;
    LeftUnfold(rest, f, r);
    var k := First(rest, f);
    Reassociate(out, rest[..k], r, LeftReplace(rest[k + |f|..], f, r));
  }

  lemma RewriteLast(s: string, f: string, r: string, out: string, rest: string)
    requires f != "" && Rewritten(s, f, r, out, rest) && First(rest, f) < 0
    ensures out + rest == LeftReplace(s, f, r)
  {
    hide First, LeftReplace;
    LeftNone(rest, f, r);
  }

  lemma RewriteStart(s: string, f: string, r: string)
    requires f != ""
    ensures Rewritten(s, f, r, "", s)
  {
  }

  /** The parts of a buffer after `r` was written at position `i`. */
  lemma Overwritten(b: string, b': string, i: nat, r: string, from: nat, end: nat)
    requires from <= i && i + |r| <= end <= |b| && b' == b[..i] + r + b[i + |r|..]
    ensures |b'| == |b| && b'[..i + |r|] == b[..from] + b[from..i] + r && b'[i + |r|..end] == b[i + |r|..end]
    ensures end < |b| ==> b'[end] == b[end]
  {
  }

  lemma SliceOf(b: string, from: nat, end: nat, k: nat, n: nat)
    requires from <= end <= |b| && k <= n <= end - from
    ensures b[from..end][..k] == b[from..from + k] && b[from..end][n..] == b[from + n..end]
  {
  }

  lemma NoNulSpliced(s: string, i: nat, k: nat, r: string)
    requires i <= k <= |s| && NoNul(s) && NoNul(r)
    ensures NoNul(s[..i] + r + s[k..])
  {
  }

  lemma {:induction false} NoNulReplaced(s: string, f: string, r: string)
    requires f != "" && NoNul(s) && NoNul(r)
    ensures NoNul(LeftReplace(s, f, r))
    decreases |s|
  {
    hide First;
    if First(s, f) >= 0 {
      NoNulReplaced(s[First(s, f) + |f|..], f, r);
    }
  }

  /** The parts of a buffer after `n` characters were moved down from `from` to `to` and `r` written behind them. */
  lemma Compacted(b: string, b1: string, b2: string, to: nat, from: nat, n: nat, r: string, next: nat, end: nat)
    requires to <= from && to + n + |r| <= next && from + n <= next <= end < |b|
    requires b1 == b[..to] + b[from..from + n] + b[to + n..]
    requires b2 == b1[..to + n] + r + b1[to + n + |r|..]
    ensures |b2| == |b| && b2[..to + n + |r|] == b[..to] + b[from..from + n] + r
    ensures b2[next..end] == b[next..end] && b2[end] == b[end]
  {
    assert b1[..to + n] == b[..to] + b[from..from + n];
    assert forall x | next <= x <= end :: b2[x] == b1[x] == b[x];
  }

  /** The text of a buffer after the tail behind position `j + f` was moved up and `r` written at `j`. */
  lemma Expanded(b: string, b1: string, b2: string, b3: string, j: nat, f: nat, r: string, len: nat)
    requires j + f <= len && f <= |r| && len + |r| - f < |b|
    requires b1 == b[..j + |r|] + b[j + f..len] + b[len + |r| - f..]
    requires b2 == b1[len + |r| - f := NUL] && b3 == b2[..j] + r + b2[j + |r|..]
    ensures |b3| == |b| && b3[..len + |r| - f] == b[..len][..j] + r + b[..len][j + f..] && b3[len + |r| - f] == NUL
  {
    var n := len + |r| - f;
    assert b[..len][j + f..] == b[j + f..len];
    forall x | 0 <= x < n
      ensures b3[x] == (b[..len][..j] + r + b[..len][j + f..])[x]
    {
    }
  }

  /** Replace `f` characters at `index` of the string that ends at `end` by the longer `r`. */
  method SpliceUp(a: array<char>, end: nat, index: nat, f: nat, r: string)
    requires index + f <= end && f <= |r| && end + |r| - f < a.Length
    modifies a
    ensures a[..end + |r| - f] == old(a[..end])[..index] + r + old(a[..end])[index + f..]
    ensures a[end + |r| - f] == NUL
  {
    var newEnd := end + |r| - f;
    ghost var was := a[..];
    CopyUp(a, index + |r|, index + f, end - (index + f));
    ghost var moved := a[..];
    assert moved == was[..index + |r|] + was[index + f..end] + was[newEnd..];
    a[newEnd] := NUL;
    ghost var ended := a[..];
    assert ended == moved[newEnd := NUL];
    CopyIn(a, index, r);
    ghost var done := a[..];
    Expanded(was, moved, ended, done, index, f, r, end);
    assert a[..newEnd] == done[..newEnd] && was[..end] == old(a[..end]);
  }

  // ---- lastIndexOf --------------------------------------------------------------------------------

  /** `found` is the last occurrence that starts before `p` and at or before `from`. */
  ghost predicate Scanned(t: string, f: string, from: nat, p: nat, found: int) {
    && -1 <= found < p && (found >= 0 ==> OccursAt(t, f, found) && found <= from)
    && forall i: nat | OccursAt(t, f, i) && i < p && i <= from :: i <= found
  }

  lemma ScanStart(t: string, f: string, from: nat)
    ensures Scanned(t, f, from, 0, -1)
  {
  }

  lemma ScanNext(t: string, f: string, from: nat, p: nat, q: int, found: int)
    requires f != "" && p <= |t| && Scanned(t, f, from, p, found)
    requires q == (var k := First(t[p..], f); if k < 0 then -1 else p + k)
    ensures q >= 0 ==> q < |t| && Scanned(t, f, from, q + 1, if q <= from then q else found)
    ensures q < 0 ==> Scanned(t, f, from, |t| + 1, found)
  {
    hide First;
    NextFrom(t, f, p);
  }

  lemma ScanEnd(t: string, f: string, from: nat, p: nat, found: int, fromIndex: nat)
    requires f != "" && t != "" && from == (if fromIndex >= |t| then |t| - 1 else fromIndex)
    requires (Scanned(t, f, from, p, found) && p > from) || Scanned(t, f, from, |t| + 1, found)
    ensures found == LastUpTo(t, f, fromIndex)
  {
    hide LastUpTo;
    var r := LastUpTo(t, f, fromIndex);
    assert r >= 0 ==> OccursAt(t, f, r) && r <= from;
  }

  // ---- the class --------------------------------------------------------------------------------

  class String {
    var buffer: array<char>
    var len: nat
    var capacity: nat

    ghost predicate Valid()
      reads this, buffer
    {
      && buffer.Length == capacity + 1 && len <= capacity
      && buffer[len] == NUL && NoNul(buffer[..len])
    }

    ghost function Text(): string
      requires len <= buffer.Length
      reads this, buffer
    {
      buffer[..len]
    }

    /** The last occurrence of `s2` that starts at or before `fromIndex`. */
    method LastIndexOf(s2: string, fromIndex: nat) returns (found: int)
      requires Valid() && NoNul(s2)
      ensures found == if s2 == "" then -1 else LastUpTo(Text(), s2, fromIndex)
    {
      if |s2| == 0 || len == 0 || |s2| > len {
        return -1;
      }
      hide LastUpTo, First, Scanned;
      var from := if fromIndex >= len then len - 1 else fromIndex;
      ghost var t := Text();
      ScanStart(t, s2, from);
      found := -1;
      var p := 0;
      while p <= from
        invariant p <= len && Scanned(t, s2, from, p, found)
        decreases len - p
      {
        var q := NextAt(s2, p);
        ScanNext(t, s2, from, p, q, found);
        if q < 0 {
          break;
        }
        if q <= from {
          found := q;
        }
        p := q + 1;
      }
      ScanEnd(t, s2, from, p, found, fromIndex);
    }

    /** `strstr` from position `p` of the text. */
    method NextAt(s2: string, p: nat) returns (q: int)
      requires Valid() && NoNul(s2) && s2 != "" && p <= len
      ensures q == (var k := First(Text()[p..], s2); if k < 0 then -1 else p + k)
    {
      hide First;
      SuffixOf(buffer[..], 0, len, p, s2);
      assert buffer[p..len] == Text()[p..];
      q := StrStr(buffer, p, s2, len);
    }

    method ReplaceSame(find: string, replace: string)
      requires Valid() && NoNul(find) && NoNul(replace) && |find| == |replace| > 0
      modifies buffer
      ensures Valid() && Text() == LeftReplace(old(Text()), find, replace)
    {
      hide First, LeftReplace, Rewritten;
      ghost var s := Text();
      NoNulReplaced(s, find, replace);
      RewriteStart(s, find, replace);
      var readFrom := 0;
      while true
        invariant readFrom <= len && buffer[len] == NUL && NoNul(buffer[readFrom..len])
        invariant Rewritten(s, find, replace, buffer[..readFrom], buffer[readFrom..len])
        decreases len - readFrom
      {
        var foundAt := StrStr(buffer, readFrom, find, len);
        if foundAt < 0 {
          break;
        }
        ghost var was, k := buffer[..], foundAt - readFrom;
        RewriteNext(s, find, replace, was[..readFrom], was[readFrom..len]);
        CopyIn(buffer, foundAt, replace);
        Overwritten(was, buffer[..], foundAt, replace, readFrom, len);
        SliceOf(was, readFrom, len, k, k + |find|);
        readFrom := foundAt + |replace|;
      }
      RewriteLast(s, find, replace, buffer[..readFrom], buffer[readFrom..len]);
      assert buffer[..len] == buffer[..readFrom] + buffer[readFrom..len];
    }

    /** Move `n` characters down and write the replacement behind them, short of position `next`. */
    method Compact(to: nat, from: nat, n: nat, replace: string, ghost next: nat, ghost end: nat)
      requires to <= from && to + n + |replace| <= next && from + n <= next <= end < buffer.Length
      modifies buffer
      ensures buffer[..to + n + |replace|] == old(buffer[..to]) + old(buffer[from..from + n]) + replace
      ensures buffer[next..end] == old(buffer[next..end]) && buffer[end] == old(buffer[end])
    {
      ghost var was := buffer[..];
      CopyDown(buffer, to, from, n);
      ghost var moved := buffer[..];
      CopyIn(buffer, to + n, replace);
      Compacted(was, moved, buffer[..], to, from, n, replace, next, end);
    }

    /** One occurrence replaced, `n` characters after the read position. */
    method CompactNext(ghost s: string, find: string, replace: string, to: nat, from: nat, n: nat, ghost end: nat)
      requires |replace| < |find| && to <= from <= end < buffer.Length && buffer[end] == NUL && NoNul(buffer[from..end])
      requires Rewritten(s, find, replace, buffer[..to], buffer[from..end]) && First(buffer[from..end], find) == n
      modifies buffer
      ensures from + n + |find| <= end && buffer[end] == NUL && NoNul(buffer[from + n + |find|..end])
      ensures Rewritten(s, find, replace, buffer[..to + n + |replace|], buffer[from + n + |find|..end])
    {
      hide First, LeftReplace, Rewritten;
      ghost var was, next := buffer[..], from + n + |find|;
      ghost var out, rest := was[..to], was[from..end];
      assert buffer[..to] == out && buffer[from..end] == rest;
      RewriteNext(s, find, replace, out, rest);
      SliceOf(was, from, end, n, n + |find|);
      SuffixOf(was, from, end, next, find);
      Compact(to, from, n, replace, next, end);
      assert buffer[..to + n + |replace|] == out + rest[..n] + replace;
      assert buffer[next..end] == rest[n + |find|..];
    }

    method ReplaceShorter(find: string, replace: string)
      requires Valid() && NoNul(find) && NoNul(replace) && |replace| < |find|
      modifies this`len, buffer
      ensures Valid() && Text() == LeftReplace(old(Text()), find, replace)
    {
      hide First, LeftReplace, Rewritten;
      ghost var s, end := Text(), len;
      NoNulReplaced(s, find, replace);
      RewriteStart(s, find, replace);
      var readFrom, writeTo := 0, 0;
      while true
        invariant 0 <= writeTo <= readFrom <= end <= capacity && buffer[end] == NUL && NoNul(buffer[readFrom..end])
        invariant len == end - readFrom + writeTo
        invariant Rewritten(s, find, replace, buffer[..writeTo], buffer[readFrom..end])
        decreases end - readFrom
      {
        var foundAt := StrStr(buffer, readFrom, find, end);
        if foundAt < 0 {
          break;
        }
        var n := foundAt - readFrom;
        CompactNext(s, find, replace, writeTo, readFrom, n, end);
        writeTo := writeTo + n + |replace|;
        readFrom := foundAt + |find|;
        len := len - (|find| - |replace|);
      }
      ghost var was := buffer[..];
      RewriteLast(s, find, replace, was[..writeTo], was[readFrom..end]);
      StrCpyDown(buffer, writeTo, readFrom, end);
      assert buffer[..len] == was[..writeTo] + was[readFrom..end];
    }

    /** `realloc` to a larger buffer, which may fail. */
    method ChangeBuffer(maxStrLen: nat, memory: bool) returns (ok: bool)
      requires Valid() && len <= maxStrLen
      modifies this
      ensures Valid() && len == old(len) && Text() == old(Text()) && ok == memory
      ensures ok ==> fresh(buffer) && capacity == maxStrLen
      ensures !ok ==> buffer == old(buffer) && capacity == old(capacity)
    {
      if !memory {
        return false;
      }
      var newbuffer := new char[maxStrLen + 1](_ => NUL);
      for k := 0 to len
        invariant newbuffer[..k] == buffer[..k] && newbuffer[len] == NUL
        modifies newbuffer
      {
        newbuffer[k] := buffer[k];
      }
      buffer, capacity := newbuffer, maxStrLen;
      return true;
    }

    /** The left-to-right scan that predicts the size of the result. */
    method SizeAfter(find: string, replace: string) returns (size: nat)
      requires Valid() && NoNul(find) && 0 < |find| < |replace|
      ensures size == PredictedSize(Text(), find, replace)
    {
      hide First;
      ghost var count := 0;
      var readFrom := 0;
      size := len;
      while true
        invariant readFrom <= len
        invariant count + LeftCount(buffer[readFrom..len], find) == LeftCount(Text(), find)
        invariant size == len + count * (|replace| - |find|)
        decreases len - readFrom
      {
        assert NoNul(buffer[readFrom..len]) by { assert buffer[readFrom..len] == buffer[..len][readFrom..]; }
        var foundAt := StrStr(buffer, readFrom, find, len);
        if foundAt < 0 {
          break;
        }
        SliceOf(buffer[..], readFrom, len, 0, foundAt - readFrom + |find|);
        readFrom := foundAt + |find|;
        Distribute(count, |replace| - |find|);
        count := count + 1;
        size := size + (|replace| - |find|);
      }
    }

    /** Replace the occurrence at `index`; there is room for it. */
    method ReplaceAt(index: nat, find: string, replace: string)
      requires Valid() && NoNul(replace) && |find| < |replace| && index + |find| <= len
      requires len + |replace| - |find| <= capacity
      modifies this`len, buffer
      ensures Valid() && Text() == old(Text())[..index] + replace + old(Text())[index + |find|..]
    {
      hide NoNul;
      NoNulSpliced(Text(), index, index + |find|, replace);
      SpliceUp(buffer, len, index, |find|, replace);
      len := len + (|replace| - |find|);
    }

    /** The right-to-left loop. `inside` is false where the code goes on to write past its buffer. */
    method ExpandInPlace(find: string, replace: string) returns (inside: bool)
      requires Valid() && NoNul(find) && NoNul(replace) && 0 < |find| < |replace|
      modifies this`len, buffer
      ensures Valid() && (inside <==> |Expand(old(Text()), find, replace)| <= capacity)
      ensures inside ==> Text() == Expand(old(Text()), find, replace)
    {
      hide LastUpTo, ExpandFrom, NoNul;
      ghost var result := Expand(Text(), find, replace);
      var index := len - 1;
      while index >= 0
        invariant Valid() && -1 <= index && ExpandFrom(Text(), find, replace, index) == result
        decreases index
      {
        ExpandTurn(Text(), find, replace, index);
        index := LastIndexOf(find, index);
        if index < 0 {
          return true;
        }
        if len + (|replace| - |find|) > capacity {
          return false;
        }
        ReplaceAt(index, find, replace);
        index := index - 1;
      }
      ExpandNone(Text(), find, replace);
      return true;
    }

    /** The expanding branch stays inside the buffer it reserves. */
    ghost predicate HasRoom(find: string, replace: string)
      requires Valid() && find != ""
      reads this, buffer
    {
      var size := PredictedSize(Text(), find, replace);
      |Expand(Text(), find, replace)| <= if size <= capacity then capacity else size
    }

    method ReplaceLonger(find: string, replace: string, memory: bool) returns (inside: bool)
      requires Valid() && NoNul(find) && NoNul(replace) && 0 < |find| < |replace|
      modifies this, buffer
      ensures Valid()
      ensures if memory || PredictedSize(old(Text()), find, replace) <= old(capacity)
              then (inside <==> old(HasRoom(find, replace))) && (inside ==> Text() == Expand(old(Text()), find, replace))
              else inside && Text() == old(Text())
    {
      hide PredictedSize, Expand, NoNul;
      var size := SizeAfter(find, replace);
      if size == len {
        NothingToReplace(Text(), find, replace);
        return true;
      }
      if size > capacity {
        var ok := ChangeBuffer(size, memory);
        if !ok {
          return true;
        }
      }
      inside := ExpandInPlace(find, replace);
    }

    /**
     `replace(find, replace)` with arguments other than this string; `memory` says whether `realloc` succeeds.
     The code stays inside its buffer exactly when the expanded text fits what was reserved for it, which
     `NoFeed` guarantees for every text.
     */
    method Replace(find: string, replace: string, memory: bool) returns (inside: bool)
      requires Valid() && NoNul(find) && NoNul(replace)
      modifies this, buffer
      ensures Valid()
      ensures find == "" ==> inside && Text() == old(Text())
      ensures 0 < |find| && |replace| <= |find| ==> inside && Text() == LeftReplace(old(Text()), find, replace)
      ensures 0 < |find| < |replace| && (memory || PredictedSize(old(Text()), find, replace) <= old(capacity)) ==>
                && (inside <==> old(HasRoom(find, replace))) && (NoFeed(find, replace) ==> inside)
                && (inside ==> Text() == Expand(old(Text()), find, replace))
                && (NoFeed(find, replace) ==> Text() == RightReplace(old(Text()), find, replace))
                && (NoFeed(find, replace) && Unbordered(find) ==> Text() == LeftReplace(old(Text()), find, replace))
      ensures 0 < |find| < |replace| && !memory && PredictedSize(old(Text()), find, replace) > old(capacity) ==>
                inside && Text() == old(Text())
    {
      hide RightReplace, LeftReplace, PredictedSize, NoNul, NoFeed, Unbordered, Expand;
      if len == 0 || |find| == 0 {
        EmptyText(find, replace);
        return true;
      }
      if |replace| == |find| {
        ReplaceSame(find, replace);
        inside := true;
      } else if |replace| < |find| {
        ReplaceShorter(find, replace);
        inside := true;
      } else {
        if NoFeed(find, replace) { ExpandFits(Text(), find, replace); }
        if Unbordered(find) { LeftIsRight(Text(), find, replace); }
        inside := ReplaceLonger(find, replace, memory);
      }
    }
  }

  lemma EmptyText(f: string, r: string)
    ensures f != "" ==> LeftReplace("", f, r) == "" && RightReplace("", f, r) == "" && Expand("", f, r) == ""
  {
  }
}
