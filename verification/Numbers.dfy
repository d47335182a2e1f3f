/** Numerals: what the number printers of `Print` and `itoa.c` write, and what `parseInt` reads back. */
module Numbers {
  import opened Arithmetic

  const LIMIT: nat := 0x1_0000_0000
  const LONG_MIN: int := -0x8000_0000

  /** A value kept in a 32-bit signed `long`. */
  function Wrap(x: int): int {
    (x + 0x8000_0000) % LIMIT - 0x8000_0000
  }

  /** Cast to `unsigned long`. */
  function Unsigned(x: int): nat { x % LIMIT }

  /** Negating a `long` and casting it gives its magnitude, for the least one too. */
  lemma Magnitude(n: int)
    requires IsLong(n)
    ensures n < 0 ==> Unsigned(Wrap(-n)) == -n
    ensures n >= 0 ==> Unsigned(n) == n
    ensures Unsigned(n) < LIMIT
  {
  }

  predicate IsLong(x: int) { LONG_MIN <= x < 0x8000_0000 }

  // ---- positional notation -------------------------------------------------------------------------

  /** A number without its last digit, and that digit. */
  function Rest(n: nat, b: nat): nat
    requires b > 0
  {
    n / b
  }

  function Last(n: nat, b: nat): nat
    requires b > 0
  {
    n % b
  }

  lemma Split(n: nat, b: nat)
    requires b > 0
    ensures n == Rest(n, b) * b + Last(n, b) && Last(n, b) < b
    ensures n < b <==> Rest(n, b) == 0
    ensures n < b ==> Last(n, b) == n
    ensures b >= 2 && n >= b ==> 2 * Rest(n, b) <= n
  {
    var q := n / b;
    assert n == q * b + n % b;
    if q >= 1 { MulGap(0, q, b); }
    if q >= 1 && b > 2 { MulGap(2, b, q); }
  }

  /** The digits of a number, most significant first. */
  function Digits(n: nat, b: nat): seq<nat>
    requires b >= 2
  {
    if n < b then [n]
    else (Split(n, b); Digits(Rest(n, b), b) + [Last(n, b)])
  }

  /** The number that a sequence of digits stands for. */
  function Value(ds: seq<nat>, b: nat): nat {
    if ds == [] then 0 else Value(ds[..|ds| - 1], b) * b + ds[|ds| - 1]
  }

  /** Digits below the base, and no zero in front of others. */
  predicate Numeral(ds: seq<nat>, b: nat) {
    ds != [] && (forall i | 0 <= i < |ds| :: ds[i] < b) && (|ds| > 1 ==> ds[0] > 0)
  }

  function Power(b: nat, k: nat): nat {
    if k == 0 then 1 else b * Power(b, k - 1)
  }

  lemma ValuePush(ds: seq<nat>, d: nat, b: nat)
    ensures Value(ds + [d], b) == Value(ds, b) * b + d
  {
    assert (ds + [d])[..|ds|] == ds;
  }

  /** The digits are a numeral of the number ... */
  lemma {:induction false} DigitsAre(n: nat, b: nat)
    requires b >= 2
    ensures Numeral(Digits(n, b), b) && Value(Digits(n, b), b) == n
    ensures n > 0 ==> Digits(n, b)[0] > 0
  {
    hide Rest, Last;
    if n < b {
      ValuePush([], n, b);
    } else {
      Split(n, b);
      DigitsAre(Rest(n, b), b);
      ValuePush(Digits(Rest(n, b), b), Last(n, b), b);
    }
  }

  lemma SplitAgain(x: nat, d: nat, b: nat)
    requires d < b
    ensures Rest(x * b + d, b) == x && Last(x * b + d, b) == d
  {
    QuotientIs(x * b + d, b, x, d);
    assert x * b + d == (x * b + d) / b * b + (x * b + d) % b;
  }

  /** ... and the only one. */
  lemma {:induction false} OnlyNumeral(ds: seq<nat>, b: nat)
    requires b >= 2 && Numeral(ds, b)
    ensures ds == Digits(Value(ds, b), b)
  {
    hide Rest, Last;
    var front, d := ds[..|ds| - 1], ds[|ds| - 1];
    assert ds == front + [d];
    if |ds| == 1 {
      assert front == [];
      ValuePush(front, d, b);
    } else {
      OnlyNumeral(front, b);
      PushNumeral(front, d, b);
    }
  }

  lemma PushNumeral(front: seq<nat>, d: nat, b: nat)
    requires b >= 2 && d < b && front != [] && front[0] > 0
    ensures Digits(Value(front + [d], b), b) == Digits(Value(front, b), b) + [d]
  {
    hide Rest, Last;
    var v := Value(front, b);
    AtLeastPower(front, b);
    MulGap(0, v, b);
    ValuePush(front, d, b);
    SplitAgain(v, d, b);
  }

  lemma {:induction false} BelowPower(ds: seq<nat>, b: nat)
    requires forall i | 0 <= i < |ds| :: ds[i] < b
    ensures Value(ds, b) < Power(b, |ds|)
  {
    if ds != [] {
      var front := ds[..|ds| - 1];
      BelowPower(front, b);
      Scaled(Value(front, b), Power(b, |front|), ds[|ds| - 1], b);
    }
  }

  lemma Scaled(v: nat, p: nat, d: nat, b: nat)
    requires v < p && d < b
    ensures v * b + d < b * p
  {
    assert (v + 1) * b <= p * b;
  }

  lemma PowerPositive(b: nat, k: nat)
    requires b >= 1
    ensures Power(b, k) >= 1
  {
  }

  lemma MulLe(x: nat, y: nat, b: nat)
    requires x <= y
    ensures b * x <= y * b
  {
    if x < y { MulGap(x, y, b); }
  }

  lemma {:induction false} AtLeastPower(ds: seq<nat>, b: nat)
    requires b >= 1 && ds != [] && ds[0] > 0
    ensures Value(ds, b) >= Power(b, |ds| - 1) >= 1
  {
    var front := ds[..|ds| - 1];
    PowerPositive(b, |ds| - 1);
    if front != [] {
      AtLeastPower(front, b);
      MulLe(Power(b, |front| - 1), Value(front, b), b);
    }
  }

  /** A 32-bit number has at most 32 digits, whatever the base. */
  lemma {:induction false} LengthWithin(n: nat, b: nat, k: nat)
    requires b >= 2 && k >= 1 && n < Power(2, k)
    ensures |Digits(n, b)| <= k
  {
    if n >= b {
      Split(n, b);
      assert k > 1;
      LengthWithin(Rest(n, b), b, k - 1);
    }
  }

  lemma Doublings()
    ensures Power(2, 32) == LIMIT
  {
    assert Power(2, 4) == 16;
    assert Power(2, 8) == 256;
    assert Power(2, 12) == 0x1000;
    assert Power(2, 16) == 0x1_0000;
    assert Power(2, 20) == 0x10_0000;
    assert Power(2, 24) == 0x100_0000;
    assert Power(2, 28) == 0x1000_0000;
  }

  lemma AtMost32(n: nat, b: nat)
    requires b >= 2 && n < LIMIT
    ensures 1 <= |Digits(n, b)| <= 32
  {
    Doublings();
    LengthWithin(n, b, 32);
    DigitsAre(n, b);
  }

  // ---- digits as characters --------------------------------------------------------------------------

  /** `printNumber`'s character of a digit, kept in a byte. */
  function Upper(d: nat): char {
    if d < 10 then (d + 48) as char else ((d + 55) % 256) as char
  }

  /** `ltoa`'s and `ultoa`'s. */
  function Lower(d: nat): char {
    if d < 10 then (d + 48) as char else ((d + 87) % 256) as char
  }

  /** They are the usual digits. */
  lemma DigitCharacters(d: nat)
    requires d < 36
    ensures d < 10 ==> Upper(d) as int == Lower(d) as int == '0' as int + d
    ensures d >= 10 ==> Upper(d) as int == 'A' as int + d - 10 && Lower(d) as int == 'a' as int + d - 10
  {
  }

  function Render(ds: seq<nat>, upper: bool): string {
    seq(|ds|, i requires 0 <= i < |ds| => if upper then Upper(ds[i]) else Lower(ds[i]))
  }

  /** What `printNumber` writes, and with `upper` off what `ultoa` stores. */
  function Text(n: nat, b: nat, upper: bool): string
    requires b >= 2
  {
    Render(Digits(n, b), upper)
  }

  /** A signed number in base ten. */
  function LongText(n: int): string {
    if n < 0 then "-" + Text(-n, 10, true) else Text(n, 10, true)
  }

  function ToLower(c: char): char {
    if 'A' <= c <= 'Z' then (c as int + 32) as char else c
  }

  /** The value of a character as a digit of a base up to 36, in either case. */
  function DigitOf(c: char): nat {
    if '0' <= c <= '9' then c as nat - 48
    else if 'a' <= ToLower(c) <= 'z' then ToLower(c) as nat - 87
    else 36
  }

  function Evaluate(text: string, b: nat): nat {
    Value(seq(|text|, i requires 0 <= i < |text| => DigitOf(text[i])), b)
  }

  /** Both printers write the numeral, in at most 32 characters, and differ only in the case of the letters. */
  lemma PrintersAgree(n: nat, b: nat)
    requires 2 <= b <= 36 && n < LIMIT
    ensures var upper, lower := Text(n, b, true), Text(n, b, false);
            && 1 <= |upper| == |lower| <= 32
            && Evaluate(upper, b) == n == Evaluate(lower, b)
            && forall i | 0 <= i < |upper| :: ToLower(upper[i]) == lower[i]
  {
    hide Digits, Value;
    DigitsAre(n, b);
    AtMost32(n, b);
    RenderedBack(Digits(n, b), b, true);
    RenderedBack(Digits(n, b), b, false);
  }

  lemma RenderedBack(ds: seq<nat>, b: nat, upper: bool)
    requires b <= 36 && forall i | 0 <= i < |ds| :: ds[i] < b
    ensures Evaluate(Render(ds, upper), b) == Value(ds, b)
  {
    var t := Render(ds, upper);
    assert seq(|t|, i requires 0 <= i < |t| => DigitOf(t[i])) == ds;
  }

  /** A different number never prints the same. */
  lemma TextInjective(m: nat, n: nat, b: nat, upper: bool)
    requires 2 <= b <= 36 && m < LIMIT && n < LIMIT && Text(m, b, upper) == Text(n, b, upper)
    ensures m == n
  {
    PrintersAgree(m, b);
    PrintersAgree(n, b);
  }
}

/** `Print::printNumber`, `Print::print(long, int)`, `ltoa` and `ultoa`. */
module NumberPrinting {
  import opened Numbers

  /** The base the digits are taken in. */
  function BaseOf(base: nat): (b: nat)
    ensures b >= 2
  {
    if base < 2 then 10 else base
  }

  /** What `print(long, int)` adds to the output. */
  function Printed(n: int, base: int): string {
    if base == 0 then [(n % 256) as char]
    else if base == 10 then LongText(n)
    else CString(Text(Unsigned(n), BaseOf(base % 256), true))
  }

  lemma RenderFront(d: nat, done: seq<nat>, upper: bool)
    ensures Render([d] + done, upper) == [if upper then Upper(d) else Lower(d)] + Render(done, upper)
  {
  }

  /** One digit off the end of what is left, which shrinks unless it is used up. */
  method DivMod(n: nat, b: nat, ghost done: seq<nat>) returns (q: nat, r: nat)
    requires b >= 2
    ensures r < b && (n > 0 ==> q < n)
    ensures Digits(n, b) + done == (if q > 0 then Digits(q, b) else []) + ([r] + done)
  {
    q, r := n / b, n % b;
    assert q == Rest(n, b) && r == Last(n, b);
    Split(n, b);
  }

  /** A C string ends at its first NUL. */
  function CString(s: string): string {
    if s == "" || s[0] == '\0' then "" else [s[0]] + CString(s[1..])
  }

  lemma {:induction false} CStringIs(s: string, k: nat)
    requires k <= |s| && (forall i | 0 <= i < k :: s[i] != '\0') && (k < |s| ==> s[k] == '\0')
    ensures CString(s) == s[..k]
  {
    if k > 0 {
      CStringIs(s[1..], k - 1);
      assert s[..k] == [s[0]] + s[1..][..k - 1];
    }
  }

  lemma {:induction false} CStringWhole(s: string)
    ensures CString(s) == s <==> '\0' !in s
  {
    if s != "" {
      assert s == [s[0]] + s[1..];
      CStringWhole(s[1..]);
    }
  }

  /** The digits all get written just when none of them is 201, the one whose character is a NUL. */
  lemma WholeExactly(n: nat, b: nat)
    requires 2 <= b < 256
    ensures CString(Text(n, b, true)) == Text(n, b, true) <==> 201 !in Digits(n, b)
    ensures b <= 201 ==> CString(Text(n, b, true)) == Text(n, b, true)
  {
    hide Digits, Render, CString;
    DigitsAre(n, b);
    CStringWhole(Text(n, b, true));
    NulDigit(Digits(n, b));
  }

  lemma NulDigit(ds: seq<nat>)
    requires forall i | 0 <= i < |ds| :: ds[i] < 256
    ensures '\0' in Render(ds, true) <==> 201 in ds
  {
    forall i | 0 <= i < |ds|
      ensures Render(ds, true)[i] == '\0' <==> ds[i] == 201
    {
      NulIs(ds[i]);
    }
    if 201 in ds {
      var i :| 0 <= i < |ds| && ds[i] == 201;
      assert Render(ds, true)[i] == '\0';
    }
  }

  lemma NulIs(d: nat)
    requires d < 256
    ensures Upper(d) == '\0' <==> d == 201
  {
  }

  method StrLen(a: array<char>, from: nat) returns (end: nat)
    requires from < a.Length && a[a.Length - 1] == '\0'
    ensures from <= end < a.Length && a[from..end] == CString(a[from..a.Length - 1])
  {
    end := from;
    while a[end] != '\0'
      invariant from <= end < a.Length && forall i | from <= i < end :: a[i] != '\0'
      decreases a.Length - end
    {
      end := end + 1;
    }
    CStringIs(a[from..a.Length - 1], end - from);
  }

  /** The two's complement of a `long`, spelled out. */
  lemma UnsignedIs(n: int)
    requires IsLong(n)
    ensures Unsigned(n) == if n < 0 then n + 0x1_0000_0000 else n
  {
  }

  /**
   What the printed text means: base 10 gives a minus sign and the magnitude, every other base up to 36 the
   two's complement in that base, a base of 1 (or one that reduces to 0 or 1) the same in base 10, base 0 a byte.
   */
  lemma PrintedMeans(n: int, base: int)
    requires IsLong(n)
    ensures base == 10 && n >= 0 ==> Evaluate(Printed(n, base), 10) == n
    ensures base == 10 && n < 0 ==> Printed(n, base) != "" && Printed(n, base)[0] == '-' && Evaluate(Printed(n, base)[1..], 10) == -n
    ensures 2 <= base <= 36 && base != 10 ==> Evaluate(Printed(n, base), base) == if n < 0 then n + 0x1_0000_0000 else n
    ensures base != 0 && base % 256 < 2 ==> Evaluate(Printed(n, base), 10) == if n < 0 then n + 0x1_0000_0000 else n
    ensures base == 0 ==> |Printed(n, base)| == 1 && (Printed(n, base)[0] as int - n) % 256 == 0
  {
    hide Text, Evaluate, CString, Unsigned;
    UnsignedIs(n);
    if base == 10 {
      PrintersAgree(if n < 0 then -n else n, 10);
    } else if base != 0 && base % 256 <= 36 {
      var b := BaseOf(base % 256);
      PrintersAgree(Unsigned(n), b);
      WholeExactly(Unsigned(n), b);
    }
  }

  /** The digits at the end of the buffer, before its NUL. */
  method FillBackwards(n: nat, b: nat, buf: array<char>) returns (str: nat)
    requires n < LIMIT && 2 <= b < 256 && buf.Length == 33
    modifies buf
    ensures str <= 32 && buf[str..32] == Text(n, b, true) && buf[32] == '\0'
  {
    str := 32;
    buf[str] := '\0';
    var v, more := n, true;
    ghost var done: seq<nat> := [];
    AtMost32(n, b);
    while more
      invariant str == 32 - |done| && |done| <= 32
      invariant v > 0 ==> more
      invariant Digits(n, b) == (if more then Digits(v, b) else []) + done
      invariant buf[str..32] == Render(done, true) && buf[32] == '\0'
      decreases more, v
    {
      var q, c := DivMod(v, b, done);
      RenderFront(c, done, true);
      v, done := q, [c] + done;
      str := str - 1;
      buf[str] := if c < 10 then (c + 48) as char else ((c + 55) % 256) as char;
      assert buf[str..32] == [buf[str]] + buf[str + 1..32];
      more := v != 0;
    }
  }

  class Print {
    var out: string

    method Write(text: string) returns (count: nat)
      modifies this
      ensures out == old(out) + text && count == |text|
    {
      out := out + text;
      count := |text|;
    }

    /** Fills a 33-byte buffer from its end and writes it out as a C string. */
    method PrintNumber(n: nat, base: nat) returns (count: nat)
      requires n < LIMIT && base < 256
      modifies this
      ensures var text := CString(Text(n, BaseOf(base), true)); out == old(out) + text && count == |text|
    {
      hide Text, CString;
      var b := if base < 2 then 10 else base;
      var buf := new char[33];
      var str := FillBackwards(n, b, buf);
      var end := StrLen(buf, str);
      count := Write(buf[str..end]);
    }

    method PrintLong(n: int, base: int) returns (count: nat)
      requires IsLong(n)
      modifies this
      ensures out == old(out) + Printed(n, base) && count == |Printed(n, base)|
    {
      hide Text, Unsigned, Wrap, CString;
      Magnitude(n);
      if base == 0 {
        count := Write([(n % 256) as char]);
      } else if base == 10 {
        if n < 0 {
          var t := Write("-");
          WholeExactly(-n, 10);
          count := PrintNumber(Unsigned(Wrap(-n)), 10);
          count := count + t;
        } else {
          WholeExactly(n, 10);
          count := PrintNumber(n, 10);
        }
      } else {
        count := PrintNumber(Unsigned(n), base % 256);
      }
    }
  }

  /** The digits in `tmp`, least significant first. */
  method DigitsBackwards(value: nat, radix: nat, tmp: array<char>) returns (tp: nat)
    requires 2 <= radix <= 36 && value < LIMIT && tmp.Length == 33
    modifies tmp
    ensures tp == |Text(value, radix, false)| <= 32
    ensures forall i | 0 <= i < tp :: tmp[tp - 1 - i] == Text(value, radix, false)[i]
  {
    var v := value;
    tp := 0;
    ghost var done: seq<nat> := [];
    AtMost32(value, radix);
    while v > 0 || tp == 0
      invariant tp == |done| <= 32
      invariant Digits(value, radix) == (if v > 0 || tp == 0 then Digits(v, radix) else []) + done
      invariant forall i | 0 <= i < tp :: tmp[tp - 1 - i] == Lower(done[i])
      decreases tp == 0, v
    {
      var q, i := DivMod(v, radix, done);
      v, done := q, [i] + done;
      tmp[tp] := if i < 10 then (i + 48) as char else (i + 87) as char;
      tp := tp + 1;
    }
  }

  /** Copies the text that `tmp` holds backwards, and a NUL. */
  method StoreReversed(tmp: array<char>, n: nat, s: array<char>, from: nat, ghost text: string)
    requires tmp != s && n <= tmp.Length && from + n < s.Length
    requires n == |text| && forall i | 0 <= i < n :: tmp[n - 1 - i] == text[i]
    modifies s
    ensures s[from..from + n] == text && s[from + n] == '\0'
    ensures s[..from] == old(s[..from]) && s[from + n + 1..] == old(s[from + n + 1..])
  {
    var tp, sp := n, from;
    while tp > 0
      invariant 0 <= tp <= n && sp == from + n - tp
      invariant forall j | from <= j < sp :: s[j] == text[j - from]
      invariant forall j | 0 <= j < s.Length && !(from <= j < sp) :: s[j] == old(s[j])
    {
      tp := tp - 1;
      assert tmp[tp] == text[n - 1 - tp];
      s[sp] := tmp[tp];
      sp := sp + 1;
    }
    s[sp] := '\0';
  }

  /** The C string `text`, stored at the start of `s` with the rest of it left alone. */
  twostate predicate Stored(s: array<char>, text: string)
    reads s
  {
    && |text| < s.Length
    && s[..|text|] == text && s[|text|] == '\0'
    && s[|text| + 1..] == old(s[|text| + 1..])
  }

  /** What `ltoa` stores. */
  function LongString(value: int, radix: nat): string
    requires radix >= 2
  {
    if radix == 10 && value < 0 then "-" + Text(-value, 10, false) else Text(Unsigned(value), radix, false)
  }

  /** What `ltoa`'s text means. */
  lemma LongStringMeans(value: int, radix: nat)
    requires IsLong(value) && 2 <= radix <= 36
    ensures radix == 10 && value < 0 ==>
              LongString(value, radix) != "" && LongString(value, radix)[0] == '-' && Evaluate(LongString(value, radix)[1..], 10) == -value
    ensures radix != 10 || value >= 0 ==>
              Evaluate(LongString(value, radix), radix) == if value < 0 then value + 0x1_0000_0000 else value
  {
    hide Text, Evaluate, Unsigned;
    UnsignedIs(value);
    PrintersAgree(if radix == 10 && value < 0 then -value else Unsigned(value), radix);
  }

  method Ultoa(value: nat, s: array?<char>, radix: int) returns (ok: bool)
    requires value < LIMIT
    requires s != null && 2 <= radix <= 36 ==> |Text(value, radix, false)| < s.Length
    modifies s
    ensures ok <==> s != null && 2 <= radix <= 36
    ensures ok ==> Stored(s, Text(value, radix, false))
    ensures !ok && s != null ==> s[..] == old(s[..])
  {
    if s == null || radix > 36 || radix <= 1 {
      return false;
    }
    StoreUnsigned(value, radix, s);
    return true;
  }

  method StoreUnsigned(v: nat, radix: nat, s: array<char>)
    requires 2 <= radix <= 36 && v < LIMIT && |Text(v, radix, false)| < s.Length
    modifies s
    ensures Stored(s, Text(v, radix, false))
  {
    hide Text;
    var tmp := new char[33];
    var tp := DigitsBackwards(v, radix, tmp);
    StoreReversed(tmp, tp, s, 0, Text(v, radix, false));
  }

  method StoreSigned(v: nat, radix: nat, s: array<char>)
    requires 2 <= radix <= 36 && v < LIMIT && |Text(v, radix, false)| + 1 < s.Length
    modifies s
    ensures Stored(s, "-" + Text(v, radix, false))
  {
    hide Text;
    var tmp := new char[33];
    var tp := DigitsBackwards(v, radix, tmp);
    s[0] := '-';
    StoreReversed(tmp, tp, s, 1, Text(v, radix, false));
    assert s[..tp + 1] == s[..1] + s[1..tp + 1];
  }

  method Ltoa(value: int, s: array?<char>, radix: int) returns (ok: bool)
    requires IsLong(value)
    requires s != null && 2 <= radix <= 36 ==> |LongString(value, radix)| < s.Length
    modifies s
    ensures ok <==> s != null && 2 <= radix <= 36
    ensures ok ==> Stored(s, LongString(value, radix))
    ensures !ok && s != null ==> s[..] == old(s[..])
  {
    hide Text, Unsigned, Wrap, Stored;
    if s == null || radix > 36 || radix <= 1 {
      return false;
    }
    Magnitude(value);
    if radix == 10 && value < 0 {
      StoreSigned(Unsigned(Wrap(-value)), radix, s);
    } else {
      StoreUnsigned(Unsigned(value), radix, s);
    }
    return true;
  }
}
