/** `Stream::peekNextDigit` and `Stream::parseInt`, and the round trip through `print`. */
module NumberParsing {
  import opened Arithmetic
  import opened Numbers
  import opened NumberPrinting
  import opened StreamFind

  datatype LookaheadMode = SkipAll | SkipNone | SkipWhitespace

  predicate IsDigit(c: char) { '0' <= c <= '9' }

  predicate Starts(c: char) { c == '-' || IsDigit(c) }

  predicate Skippable(mode: LookaheadMode, c: char) {
    !Starts(c) && (mode.SkipAll? || (mode.SkipWhitespace? && (c == ' ' || c == '\t' || c == '\r' || c == '\n')))
  }

  /** How much of the input is passed over. */
  function Passed(mode: LookaheadMode, s: string): (k: nat)
    ensures k <= |s| && (forall i | 0 <= i < k :: Skippable(mode, s[i]))
    ensures k < |s| ==> !Skippable(mode, s[k])
  {
    if s == "" || !Skippable(mode, s[0]) then 0 else 1 + Passed(mode, s[1..])
  }

  predicate Continues(c: char, ignore: char) { IsDigit(c) || c == ignore }

  /** How many characters from `s` on belong to the number. */
  function RunLength(s: string, ignore: char): (k: nat)
    ensures k <= |s| && (forall i | 0 <= i < k :: Continues(s[i], ignore))
    ensures k < |s| ==> !Continues(s[k], ignore)
  {
    if s == "" || !Continues(s[0], ignore) then 0 else 1 + RunLength(s[1..], ignore)
  }

  /** The digits among the characters of a number. */
  function DigitsIn(text: string, ignore: char): seq<nat> {
    if text == "" then []
    else
      var c := text[|text| - 1];
      var ds := DigitsIn(text[..|text| - 1], ignore);
      if c != ignore && IsDigit(c) then ds + [c as nat - 48] else ds
  }

  /** The number a stretch of characters stands for, in a `long`. */
  function NumberIn(text: string, ignore: char): int
    requires text != ""
  {
    var v: int := Value(DigitsIn(text, ignore), 10);
    Wrap(if text[0] == '-' && ignore != '-' then -v else v)
  }

  datatype Reading = Reading(value: int, rest: string)

  /** What `parseInt` returns and what it leaves in the stream. */
  function Parsed(mode: LookaheadMode, s: string, ignore: char): Reading {
    var t := s[Passed(mode, s)..];
    if t == "" || !Starts(t[0]) then Reading(0, t)
    else
      var n := 1 + RunLength(t[1..], ignore);
      Reading(NumberIn(t[..n], ignore), t[n..])
  }

  method TimedPeek(s: Stream) returns (c: int)
    ensures s.input == "" ==> c == -1
    ensures s.input != "" ==> c == s.input[0] as int
  {
    c := if s.input == "" then -1 else s.input[0] as int;
  }

  method PeekNextDigit(s: Stream, mode: LookaheadMode) returns (c: int)
    modifies s
    ensures s.input == old(s.input)[Passed(mode, old(s.input))..]
    ensures c == if s.input != "" && Starts(s.input[0]) then s.input[0] as int else -1
  {
    ghost var was := s.input;
    ghost var k := 0;
    while true
      invariant k <= |was| && s.input == was[k..]
      invariant k + Passed(mode, was[k..]) == Passed(mode, was)
      decreases |s.input|
    {
      c := TimedPeek(s);
      if c < 0 || c == '-' as int || '0' as int <= c <= '9' as int {
        return;
      }
      match mode {
        case SkipNone =>
          return -1;
        case SkipWhitespace =>
          if c != ' ' as int && c != '\t' as int && c != '\r' as int && c != '\n' as int {
            return -1;
          }
        case SkipAll =>
      }
      var _ := s.TimedRead();
      assert was[k..][1..] == was[k + 1..];
      k := k + 1;
    }
  }

  // ---- wrapping ----------------------------------------------------------------------------------------

  lemma WrapIs(x: int)
    ensures exists k :: x == Wrap(x) + k * LIMIT
    ensures IsLong(Wrap(x)) && (IsLong(x) ==> Wrap(x) == x)
  {
    var k := (x + 0x8000_0000) / LIMIT;
    assert x == Wrap(x) + k * LIMIT;
  }

  lemma WrapShift(x: int, k: int)
    ensures Wrap(x + k * LIMIT) == Wrap(x)
  {
  }

  /** Wrapping after every digit or only at the end is the same. */
  lemma WrapDigit(v: int, d: int)
    ensures Wrap(Wrap(v) * 10 + d) == Wrap(v * 10 + d)
  {
    hide Wrap;
    WrapIs(v);
    var k :| v == Wrap(v) + k * LIMIT;
    assert v * 10 + d == Wrap(v) * 10 + d + (10 * k) * LIMIT;
    WrapShift(Wrap(v) * 10 + d, 10 * k);
  }

  lemma WrapNegate(v: int)
    ensures Wrap(-Wrap(v)) == Wrap(-v)
  {
    hide Wrap;
    WrapIs(v);
    var k :| v == Wrap(v) + k * LIMIT;
    assert -v == -Wrap(v) + (-k) * LIMIT;
    WrapShift(-Wrap(v), -k);
  }

  // ---- parseInt ----------------------------------------------------------------------------------------

  lemma DigitsInPush(text: string, c: char, ignore: char)
    ensures DigitsIn(text + [c], ignore) ==
            if c != ignore && IsDigit(c) then DigitsIn(text, ignore) + [c as nat - 48] else DigitsIn(text, ignore)
  {
    assert (text + [c])[..|text|] == text;
  }

  /** One character taken into the accumulator. */
  method Take(value: int, c: char, ignore: char, ghost text: string) returns (next: int)
    requires value == Wrap(Value(DigitsIn(text, ignore), 10))
    ensures next == Wrap(Value(DigitsIn(text + [c], ignore), 10))
  {
    hide Wrap;
    DigitsInPush(text, c, ignore);
    next := value;
    if c != ignore && c != '-' && IsDigit(c) {
      next := Wrap(value * 10 + (c as int - 48));
      ghost var ds := DigitsIn(text, ignore);
      WrapDigit(Value(ds, 10), c as int - 48);
      ValuePush(ds, c as nat - 48, 10);
    }
  }

  method ParseInt(s: Stream, mode: LookaheadMode, ignore: char) returns (value: int)
    modifies s
    ensures Reading(value, s.input) == Parsed(mode, old(s.input), ignore)
  {
    hide Wrap, Value, DigitsIn, Passed, RunLength, Parsed;
    ParsedIs(mode, s.input, ignore);
    var c := PeekNextDigit(s, mode);
    if c < 0 {
      return 0;
    }
    ghost var t := s.input;
    var negative := c != ignore as int && c == '-' as int;
    value := ReadNumber(s, ignore);
    if negative {
      WrapNegate(Value(DigitsIn(t[..1 + RunLength(t[1..], ignore)], ignore), 10));
      value := Wrap(-value);
    }
  }

  lemma ParsedIs(mode: LookaheadMode, s: string, ignore: char)
    ensures var t := s[Passed(mode, s)..];
            if t == "" || !Starts(t[0]) then Parsed(mode, s, ignore) == Reading(0, t)
            else
              var n := 1 + RunLength(t[1..], ignore);
              var v: int := Value(DigitsIn(t[..n], ignore), 10);
              Parsed(mode, s, ignore) == Reading(Wrap(if t[0] == '-' && ignore != '-' then -v else v), t[n..])
  {
    hide Wrap, Value, DigitsIn;
  }

  /** The loop over the characters of the number. */
  method ReadNumber(s: Stream, ignore: char) returns (value: int)
    requires s.input != ""
    modifies s
    ensures var n := 1 + RunLength(old(s.input)[1..], ignore);
            && value == Wrap(Value(DigitsIn(old(s.input)[..n], ignore), 10))
            && s.input == old(s.input)[n..]
  {
    hide Wrap, Value, DigitsIn;
    ghost var t := s.input;
    ghost var n := 0;
    NothingYet(ignore);
    value := 0;
    var c := s.input[0] as int;
    var more := true;
    assert t[..0] == "";
    while more
      invariant n <= |t| && s.input == t[n..]
      invariant value == Wrap(Value(DigitsIn(t[..n], ignore), 10))
      invariant n > 0 ==> n + RunLength(t[n..], ignore) == 1 + RunLength(t[1..], ignore)
      invariant n == 0 ==> more
      invariant n > 0 ==> (more <==> n < |t| && Continues(t[n], ignore))
      invariant more ==> n < |t| && c == t[n] as int
      decreases |s.input|, more
    {
      value := Take(value, c as char, ignore, t[..n]);
      assert t[..n] + [t[n]] == t[..n + 1];
      assert t[n..][1..] == t[n + 1..];
      n := n + 1;
      var _ := s.TimedRead();
      c := TimedPeek(s);
      more := '0' as int <= c <= '9' as int || c == ignore as int;
    }
  }

  lemma NothingYet(ignore: char)
    ensures Wrap(Value(DigitsIn("", ignore), 10)) == 0
  {
  }

  // ---- the round trip ----------------------------------------------------------------------------------

  /** Where the printed number ends: nothing follows, or a character `parseInt` stops at. */
  predicate Ends(rest: string, ignore: char) {
    rest == "" || !Continues(rest[0], ignore)
  }

  lemma {:induction false} RunOver(text: string, rest: string, ignore: char)
    requires (forall i | 0 <= i < |text| :: IsDigit(text[i])) && Ends(rest, ignore)
    ensures RunLength(text + rest, ignore) == |text|
  {
    if text == "" {
      assert text + rest == rest;
    } else {
      assert (text + rest)[1..] == text[1..] + rest;
      RunOver(text[1..], rest, ignore);
    }
  }

  /** Exactly the printed characters are read, whatever the ignored character. */
  lemma ReadsPrinted(n: int, rest: string, mode: LookaheadMode, ignore: char)
    requires Ends(rest, ignore)
    ensures LongText(n) != ""
    ensures Parsed(mode, LongText(n) + rest, ignore) == Reading(NumberIn(LongText(n), ignore), rest)
  {
    hide Digits, Value, Wrap, NumberIn;
    var m: nat := if n < 0 then -n else n;
    DigitsAre(m, 10);
    var text := LongText(n);
    DecimalText(m);
    var s := text + rest;
    assert Starts(s[0]) && Passed(mode, s) == 0 && s[0..] == s;
    assert s[1..] == text[1..] + rest;
    RunOver(text[1..], rest, ignore);
    assert s[..|text|] == text && s[|text|..] == rest;
  }

  lemma DecimalText(m: nat)
    ensures Text(m, 10, true) != "" && forall i | 0 <= i < |Text(m, 10, true)| :: IsDigit(Text(m, 10, true)[i])
  {
    DigitsAre(m, 10);
  }

  /** Without the ignored character, the digits read are the digits printed. */
  lemma {:induction false} ReadsDigits(ds: seq<nat>, ignore: char)
    requires forall i | 0 <= i < |ds| :: ds[i] < 10
    requires ignore !in Render(ds, true)
    ensures DigitsIn(Render(ds, true), ignore) == ds
  {
    if ds != [] {
      var front, d := ds[..|ds| - 1], ds[|ds| - 1];
      RenderPush(front, d);
      assert ds == front + [d];
      ReadsDigits(front, ignore);
      DigitsInPush(Render(front, true), Upper(d), ignore);
    }
  }

  lemma RenderPush(front: seq<nat>, d: nat)
    ensures Render(front + [d], true) == Render(front, true) + [Upper(d)]
  {
  }

  /** With it, at least one digit is missing. */
  lemma {:induction false} FewerDigits(ds: seq<nat>, ignore: char)
    requires forall i | 0 <= i < |ds| :: ds[i] < 10
    ensures var r := DigitsIn(Render(ds, true), ignore);
            |r| <= |ds| && (forall i | 0 <= i < |r| :: r[i] < 10) && (ignore in Render(ds, true) ==> |r| < |ds|)
  {
    if ds != [] {
      var front, d := ds[..|ds| - 1], ds[|ds| - 1];
      RenderPush(front, d);
      assert ds == front + [d];
      FewerDigits(front, ignore);
      DigitsInPush(Render(front, true), Upper(d), ignore);
    }
  }

  lemma PowerMono(b: nat, j: nat, k: nat)
    requires b >= 1 && j <= k
    ensures Power(b, j) <= Power(b, k)
  {
  }

  /** The value read is the printed one, or a smaller one if the ignored character took away a digit. */
  lemma ReadMagnitude(m: nat, ignore: char)
    ensures var v := Value(DigitsIn(Text(m, 10, true), ignore), 10);
            && (ignore !in Text(m, 10, true) ==> v == m)
            && (ignore in Text(m, 10, true) ==> m == 0 == v || v < m)
  {
    hide Digits, Value, DigitsIn, Render;
    var ds := Digits(m, 10);
    DigitsAre(m, 10);
    if ignore !in Render(ds, true) {
      ReadsDigits(ds, ignore);
    } else {
      FewerDigits(ds, ignore);
      Smaller(ds, DigitsIn(Render(ds, true), ignore));
    }
  }

  lemma Smaller(ds: seq<nat>, r: seq<nat>)
    requires Numeral(ds, 10) && |r| < |ds| && forall i | 0 <= i < |r| :: r[i] < 10
    ensures Value(ds, 10) == 0 == Value(r, 10) || Value(r, 10) < Value(ds, 10)
  {
    if ds[0] > 0 {
      BelowPower(r, 10);
      AtLeastPower(ds, 10);
      PowerMono(10, |r|, |ds| - 1);
    } else {
      assert ds[..0] == [] && r == [];
    }
  }

  lemma SignRead(text: string, ignore: char)
    ensures DigitsIn("-" + text, ignore) == DigitsIn(text, ignore)
  {
    if text == "" {
      DigitsInPush("", '-', ignore);
      assert "-" + text == "" + ['-'];
    } else {
      var front, c := text[..|text| - 1], text[|text| - 1];
      SignRead(front, ignore);
      DigitsInPush("-" + front, c, ignore);
      assert "-" + text == ("-" + front) + [c];
    }
  }

  /**
   Printing a `long` in base ten and parsing it returns it and leaves the stream right behind it, for every
   value and every lookahead mode, just when the ignored character is not among those printed. The two
   exceptions come out right by luck: zero, and the least value without its sign.
   */
  lemma RoundTripExactly(n: int, rest: string, mode: LookaheadMode, ignore: char)
    requires IsLong(n) && Ends(rest, ignore)
    ensures Parsed(mode, Printed(n, 10) + rest, ignore).rest == rest
    ensures Parsed(mode, Printed(n, 10) + rest, ignore).value == n <==>
            ignore !in Printed(n, 10) || n == 0 || (n == LONG_MIN && ignore == '-')
  {
    hide Text, Value, DigitsIn, Wrap, Parsed;
    ReadsPrinted(n, rest, mode, ignore);
    var m: nat := if n < 0 then -n else n;
    var text := Text(m, 10, true);
    DecimalText(m);
    ReadMagnitude(m, ignore);
    SignRead(text, ignore);
    var v: int := Value(DigitsIn(text, ignore), 10);
    WrapIs(v);
    WrapIs(-v);
    Extreme();
  }

  lemma Extreme()
    ensures Wrap(-LONG_MIN) == LONG_MIN
  {
  }

  // ---- numbers with separators, behind other text -----------------------------------------------------------

  /** The text with every `ignore` taken out. */
  function Without(text: string, ignore: char): string {
    if text == "" then ""
    else Without(text[..|text| - 1], ignore) + (if text[|text| - 1] == ignore then "" else [text[|text| - 1]])
  }

  lemma {:induction false} WithoutFirst(text: string, ignore: char)
    requires text != "" && text[0] != ignore
    ensures Without(text, ignore) == [text[0]] + Without(text[1..], ignore)
  {
    var n := |text| - 1;
    if n > 0 {
      WithoutFirst(text[..n], ignore);
      assert text[..n][1..] == text[1..][..n - 1];
    }
  }

  lemma {:induction false} OthersKept(text: string, ignore: char)
    ensures forall i | 0 <= i < |text| :: text[i] == ignore || text[i] in Without(text, ignore)
  {
    if text != "" { OthersKept(text[..|text| - 1], ignore); }
  }

  lemma {:induction false} DigitsWithout(text: string, ignore: char)
    ensures DigitsIn(Without(text, ignore), ignore) == DigitsIn(text, ignore)
  {
    if text != "" {
      var n := |text| - 1;
      DigitsWithout(text[..n], ignore);
      assert text == text[..n] + [text[n]];
      DigitsInPush(text[..n], text[n], ignore);
      DigitsInPush(Without(text[..n], ignore), text[n], ignore);
      assert text[n] == ignore ==> Without(text, ignore) == Without(text[..n], ignore);
    }
  }

  /** Exactly `junk` is passed over in front of a sign or digit, and exactly `text` is read as the number. */
  lemma Delimited(mode: LookaheadMode, junk: string, text: string, rest: string, ignore: char)
    requires text != "" && Starts(text[0]) && Ends(rest, ignore)
    requires forall i | 0 <= i < |junk| :: Skippable(mode, junk[i])
    requires forall i | 0 < i < |text| :: Continues(text[i], ignore)
    ensures Parsed(mode, junk + text + rest, ignore) == Reading(NumberIn(text, ignore), rest)
  {
    hide NumberIn;
    var s, t := junk + text + rest, text + rest;
    assert s[|junk|] == text[0];
    PassedIs(mode, s, |junk|);
    assert s[|junk|..] == t;
    var r, n := t[1..], |text| - 1;
    assert r == text[1..] + rest;
    assert forall i | 0 <= i < n :: r[i] == text[i + 1];
    assert n < |r| ==> r[n] == rest[0];
    RunLengthIs(r, ignore, n);
    assert t[..n + 1] == text && t[n + 1..] == rest;
  }

  lemma PassedIs(mode: LookaheadMode, s: string, k: nat)
    requires k <= |s| && (forall i | 0 <= i < k :: Skippable(mode, s[i])) && (k < |s| ==> !Skippable(mode, s[k]))
    ensures Passed(mode, s) == k
  {
    hide Skippable;
    assert Passed(mode, s) >= k;
    assert Passed(mode, s) <= k;
  }

  lemma RunLengthIs(s: string, ignore: char, k: nat)
    requires k <= |s| && (forall i | 0 <= i < k :: Continues(s[i], ignore)) && (k < |s| ==> !Continues(s[k], ignore))
    ensures RunLength(s, ignore) == k
  {
    hide Continues;
    assert RunLength(s, ignore) >= k;
    assert RunLength(s, ignore) <= k;
  }

  /** A numeral's value with its sign. */
  function Signed(negative: bool, ds: seq<nat>): int {
    var v: int := Value(ds, 10);
    if negative then -v else v
  }

  predicate SeparatedNumeral(text: string, ignore: char, negative: bool, ds: seq<nat>) {
    && ignore != '-' && !('0' <= ignore <= '9')
    && text != "" && text[0] != ignore && (negative || ds != []) && (forall i | 0 <= i < |ds| :: ds[i] < 10)
    && Without(text, ignore) == (if negative then "-" else "") + Render(ds, true)
  }

  lemma RenderedDigits(ds: seq<nat>)
    requires forall i | 0 <= i < |ds| :: ds[i] < 10
    ensures |Render(ds, true)| == |ds| && forall i | 0 <= i < |ds| :: '0' <= Render(ds, true)[i] <= '9'
  {
  }

  lemma NumeralFirst(text: string, ignore: char, negative: bool, ds: seq<nat>)
    requires SeparatedNumeral(text, ignore, negative, ds)
    ensures text[0] == '-' <==> negative
    ensures forall i | 0 <= i < |Without(text[1..], ignore)| :: '0' <= Without(text[1..], ignore)[i] <= '9'
  {
    RenderedDigits(ds);
    WithoutFirst(text, ignore);
    var whole, tail := Without(text, ignore), Without(text[1..], ignore);
    hide Without, Render;
    assert whole == [text[0]] + tail;
    forall i | 0 <= i < |tail|
      ensures '0' <= tail[i] <= '9'
    {
      assert tail[i] == whole[i + 1];
    }
    assert text[0] == whole[0];
  }

  lemma NumeralContinues(text: string, ignore: char, negative: bool, ds: seq<nat>)
    requires SeparatedNumeral(text, ignore, negative, ds)
    ensures forall i | 0 < i < |text| :: Continues(text[i], ignore)
  {
    NumeralFirst(text, ignore, negative, ds);
    OthersKept(text[1..], ignore);
    hide Without;
    var tail := Without(text[1..], ignore);
    forall i | 0 < i < |text|
      ensures Continues(text[i], ignore)
    {
      assert text[i] == text[1..][i - 1];
    }
  }

  /** What a numeral with separators reads as. */
  lemma NumeralRead(text: string, ignore: char, negative: bool, ds: seq<nat>)
    requires SeparatedNumeral(text, ignore, negative, ds)
    ensures NumberIn(text, ignore) == Wrap(Signed(negative, ds))
  {
    hide Wrap, Value, Without, DigitsIn, Render;
    NumeralFirst(text, ignore, negative, ds);
    RenderedDigits(ds);
    DigitsWithout(text, ignore);
    SignRead(Render(ds, true), ignore);
    ReadsDigits(ds, ignore);
    assert "" + Render(ds, true) == Render(ds, true);
  }

  /**
   Numbers as people write them: `text` starts with a sign or a digit and is a numeral once every `ignore` is
   taken out; in front of it there is `junk` the mode allows, behind it nothing or a character that is neither
   a digit nor `ignore`. The numeral's value, in a `long`, is returned and exactly `rest` is left.
   */
  lemma ParsesSeparated(mode: LookaheadMode, junk: string, text: string, rest: string, ignore: char, negative: bool, ds: seq<nat>)
    requires ignore != '-' && !('0' <= ignore <= '9')
    requires forall i | 0 <= i < |junk| :: junk[i] != '-' && !('0' <= junk[i] <= '9')
    requires mode.SkipNone? ==> junk == ""
    requires mode.SkipWhitespace? ==>
               forall i | 0 <= i < |junk| :: junk[i] == ' ' || junk[i] == '\t' || junk[i] == '\r' || junk[i] == '\n'
    requires text != "" && (text[0] == '-' || '0' <= text[0] <= '9')
    requires (negative || ds != []) && forall i | 0 <= i < |ds| :: ds[i] < 10
    requires Without(text, ignore) == (if negative then "-" else "") + Render(ds, true)
    requires rest == "" || (rest[0] != ignore && !('0' <= rest[0] <= '9'))
    ensures Parsed(mode, junk + text + rest, ignore) == Reading(Wrap(Signed(negative, ds)), rest)
  {
    hide Wrap, Value, NumberIn, Parsed;
    NumeralContinues(text, ignore, negative, ds);
    NumeralRead(text, ignore, negative, ds);
    Delimited(mode, junk, text, rest, ignore);
  }

  /** In particular a `long` printed with separators. */
  lemma ParsesPrinted(mode: LookaheadMode, junk: string, text: string, rest: string, ignore: char, n: int)
    requires IsLong(n) && ignore != '-' && !('0' <= ignore <= '9')
    requires forall i | 0 <= i < |junk| :: junk[i] != '-' && !('0' <= junk[i] <= '9')
    requires mode.SkipNone? ==> junk == ""
    requires mode.SkipWhitespace? ==>
               forall i | 0 <= i < |junk| :: junk[i] == ' ' || junk[i] == '\t' || junk[i] == '\r' || junk[i] == '\n'
    requires text != "" && (text[0] == '-' || '0' <= text[0] <= '9') && Without(text, ignore) == LongText(n)
    requires rest == "" || (rest[0] != ignore && !('0' <= rest[0] <= '9'))
    ensures Parsed(mode, junk + text + rest, ignore) == Reading(n, rest)
  {
    hide Wrap, Value, Parsed, Digits;
    var m: nat := if n < 0 then -n else n;
    DigitsAre(m, 10);
    WrapIs(n);
    assert "" + Text(m, 10, true) == Text(m, 10, true);
    ParsesSeparated(mode, junk, text, rest, ignore, n < 0, Digits(m, 10));
  }

  /** With no number to be found, 0 is returned and the stream is left where the mode stops looking. */
  lemma ParsesNothing(mode: LookaheadMode, junk: string, rest: string, ignore: char)
    requires forall i | 0 <= i < |junk| :: junk[i] != '-' && !('0' <= junk[i] <= '9')
    requires mode.SkipNone? ==> junk == ""
    requires mode.SkipWhitespace? ==>
               forall i | 0 <= i < |junk| :: junk[i] == ' ' || junk[i] == '\t' || junk[i] == '\r' || junk[i] == '\n'
    requires mode.SkipAll? ==> rest == ""
    requires rest != "" ==> rest[0] != '-' && !('0' <= rest[0] <= '9')
    requires mode.SkipWhitespace? && rest != "" ==> rest[0] != ' ' && rest[0] != '\t' && rest[0] != '\r' && rest[0] != '\n'
    ensures Parsed(mode, junk + rest, ignore) == Reading(0, rest)
  {
    var s := junk + rest;
    assert rest != "" ==> s[|junk|] == rest[0];
    PassedIs(mode, s, |junk|);
    assert s[|junk|..] == rest;
  }
}
