/**
 Arithmetic of `wiring.c`'s timekeeping: a 24-bit down-counter that reloads every millisecond, and a 32-bit
 count of the reloads that have been serviced. The processor clock is any whole number of megahertz whose
 millisecond fits the counter; the boards run at 80 or 120.
 */
module SysTickTime {
  import opened Arithmetic

  const U24: nat := 0x100_0000
  const U32: nat := 0x1_0000_0000

  /** Ticks per microsecond: F_CPU / 1000000. */
  type Rate = f: nat | 1 <= f <= 16777 witness 120

  function Period(f: Rate): nat { 1000 * f }

  /** Reloads up to tick `t`, when tick 0 is one, and the ticks since the last of them. */
  function Reloads(f: Rate, t: nat): nat {
    NonNegative(t, Period(f));
    t / Period(f)
  }

  lemma NonNegative(n: nat, d: nat)
    requires d > 0
    ensures n / d >= 0
  {
  }

  function Phase(f: Rate, t: nat): (r: nat)
    ensures r < Period(f)
  {
    t % Period(f)
  }

  lemma Split(f: Rate, t: nat)
    ensures t == Reloads(f, t) * Period(f) + Phase(f, t)
  {
  }

  lemma SplitIs(f: Rate, t: nat, q: nat, r: nat)
    requires t == q * Period(f) + r && r < Period(f)
    ensures Reloads(f, t) == q && Phase(f, t) == r
  {
    QuotientIs(t, Period(f), q, r);
    Split(f, t);
  }

  lemma ReloadsMono(f: Rate, t: nat, t': nat)
    requires t <= t'
    ensures Reloads(f, t) <= Reloads(f, t')
  {
    hide Reloads, Phase;
    Split(f, t);
    Split(f, t');
    if Reloads(f, t') < Reloads(f, t) { MulGap(Reloads(f, t'), Reloads(f, t), Period(f)); }
  }

  /** Fewer than `n` periods hold at most `n` reloads. */
  lemma ReloadsWithin(f: Rate, t: nat, t': nat, n: nat)
    requires t <= t' < t + n * Period(f)
    ensures Reloads(f, t) <= Reloads(f, t') <= Reloads(f, t) + n
  {
    hide Reloads, Phase, Period;
    ReloadsMono(f, t, t');
    Split(f, t);
    Split(f, t');
    var a, b, p := Reloads(f, t), Reloads(f, t'), Period(f);
    assert (a + n) * p == a * p + n * p;
    if b > a + n { MulGap(a + n, b, p); }
  }

  /** The counter at tick `t`. */
  function Counter(f: Rate, t: nat): (c: nat)
    ensures c < Period(f)
  {
    Period(f) - 1 - Phase(f, t)
  }

  /** Whole microseconds after tick `t`, before any wrap-around. */
  function Micros(f: Rate, t: nat): nat { (t + 1) / f }

  /** What `micros()` computes from the two values it read. */
  function Reading(f: Rate, milliseconds: nat, val: nat): nat
    requires val < Period(f)
  {
    (milliseconds * 1000 + (Period(f) - val) / f) % U32
  }

  lemma MicrosSplit(f: Rate, t: nat)
    ensures Micros(f, t) == Reloads(f, t) * 1000 + (Period(f) - Counter(f, t)) / f
  {
    hide Reloads, Phase;
    Split(f, t);
    var q, b := Reloads(f, t), Phase(f, t);
    assert q * Period(f) == f * (q * 1000);
    DivAdd(f, q * 1000, b + 1);
  }

  lemma DivAdd(f: Rate, n: nat, b: nat)
    ensures (f * n + b) / f == n + b / f
  {
    var q, r := b / f, b % f;
    assert b == q * f + r;
    assert f * n + b == (n + q) * f + r;
    QuotientIs(f * n + b, f, n + q, r);
  }

  lemma WrapAdd(a: nat, b: nat)
    ensures ((a % U32) * 1000 + b) % U32 == (a * 1000 + b) % U32
  {
    var q, r := a / U32, a % U32;
    assert a * 1000 + b == (q * 1000) * U32 + (r * 1000 + b);
    ModOf(q * 1000, r * 1000 + b);
  }

  lemma ModOf(q: nat, r: nat)
    ensures (q * U32 + r) % U32 == r % U32
  {
  }

  /**
   The reading is exact when every reload up to the sampled tick had been serviced when `milliseconds` was
   read; each reload not yet counted makes it 1000 microseconds short, modulo 2^32.
   */
  lemma ReadingExactly(f: Rate, serviced: nat, t: nat)
    requires serviced <= Reloads(f, t) < serviced + 0x2000_0000
    ensures Reading(f, serviced % U32, Counter(f, t)) == Micros(f, t) % U32 <==> serviced == Reloads(f, t)
    ensures (Reading(f, serviced % U32, Counter(f, t)) + (Reloads(f, t) - serviced) * 1000) % U32 == Micros(f, t) % U32
  {
    hide Reloads, Counter, Micros;
    var q, c := Reloads(f, t), (Period(f) - Counter(f, t)) / f;
    MicrosSplit(f, t);
    WrapAdd(serviced, c);
    var d := q - serviced;
    var x := serviced * 1000 + c;
    assert q * 1000 + c == x + d * 1000;
    ShiftedMod(x, d);
  }

  lemma ShiftedMod(x: nat, d: nat)
    requires d < 0x2000_0000
    ensures (x % U32 + d * 1000) % U32 == (x + d * 1000) % U32
    ensures x % U32 == (x + d * 1000) % U32 <==> d == 0
  {
    var a, b := x / U32, (x + d * 1000) / U32;
    if x % U32 == (x + d * 1000) % U32 {
      assert d * 1000 == (b - a) * U32;
      assert d * 125 == (b - a) * 0x2000_0000;
      Divides(d, b - a);
    }
  }

  /** 125 is odd, so a multiple of 2^29 among the multiples of 125 below 125 * 2^29 is 0. */
  lemma Divides(d: nat, k: int)
    requires d < 0x2000_0000 && d * 125 == k * 0x2000_0000
    ensures d == 0
  {
    assert 0 <= k < 125;
  }

  /** Equal counts before and after, read less than 2^32 - 1 milliseconds apart, mean no reload in between. */
  lemma StableRead(f: Rate, first: nat, sampled: nat, last: nat)
    requires first <= sampled <= last < first + (U32 - 1) * Period(f)
    requires Reloads(f, first) % U32 == Reloads(f, last) % U32
    ensures Reloads(f, first) == Reloads(f, sampled) == Reloads(f, last)
  {
    hide Reloads, Period;
    ReloadsMono(f, first, sampled);
    ReloadsMono(f, sampled, last);
    ReloadsWithin(f, first, last, U32 - 1);
    SameMod(Reloads(f, first), Reloads(f, last));
  }

  lemma SameMod(a: nat, b: nat)
    requires a <= b < a + U32 && a % U32 == b % U32
    ensures a == b
  {
  }

  // ---- delayMicroseconds ----------------------------------------------------------------------------

  /** The masked difference of two counter values. */
  function Elapsed24(start: nat, current: nat): nat {
    (start - current) % U24
  }

  /** The threshold of the polling loop. */
  function Threshold(f: Rate, ticks: nat, start: nat): nat
    requires ticks < Period(f)
  {
    if ticks > start then (ticks + (U24 - 1 - Period(f))) % U24 else ticks
  }

  /** The ticks since `t0`, within one counter period. */
  lemma PhaseDifference(f: Rate, t0: nat, t: nat)
    requires t0 <= t
    ensures Phase(f, t - t0) == if Phase(f, t) >= Phase(f, t0) then Phase(f, t) - Phase(f, t0)
                                else Phase(f, t) - Phase(f, t0) + Period(f)
  {
    hide Reloads, Phase, Period;
    Split(f, t0);
    Split(f, t);
    ReloadsMono(f, t0, t);
    var a, b, p, q, n := Phase(f, t0), Phase(f, t), Reloads(f, t0), Reloads(f, t), Period(f);
    assert (q - p) * n == q * n - p * n;
    if b >= a {
      SplitIs(f, t - t0, q - p, b - a);
    } else {
      assert q > p;
      assert (q - p - 1) * n == (q - p) * n - n;
      SplitIs(f, t - t0, q - p - 1, b + n - a);
    }
  }

  lemma PhaseAtMost(f: Rate, n: nat)
    ensures Phase(f, n) <= n && (n < Period(f) ==> Phase(f, n) == n)
  {
    hide Reloads, Phase;
    Split(f, n);
    if n < Period(f) { SplitIs(f, n, 0, n); }
  }

  /** The loop ends at a poll exactly when enough ticks lie between start and poll, counted within a period. */
  lemma ExitExactly(f: Rate, t0: nat, t: nat, ticks: nat)
    requires t0 <= t && ticks < Period(f)
    ensures Elapsed24(Counter(f, t0), Counter(f, t)) > Threshold(f, ticks, Counter(f, t0)) <==>
            (if ticks > Counter(f, t0) then Phase(f, t - t0) >= ticks else Phase(f, t - t0) > ticks)
  {
    PhaseDifference(f, t0, t);
    hide Reloads, Phase;
    var a, b := Phase(f, t0), Phase(f, t);
    if b >= a {
      assert Elapsed24(Counter(f, t0), Counter(f, t)) == b - a;
    } else {
      assert Elapsed24(Counter(f, t0), Counter(f, t)) == b - a + U24;
    }
  }

  /** Never early, for every phase of the counter and however late the poll is. */
  lemma NeverEarly(f: Rate, t0: nat, t: nat, ticks: nat)
    requires t0 <= t && ticks < Period(f)
    requires Elapsed24(Counter(f, t0), Counter(f, t)) > Threshold(f, ticks, Counter(f, t0))
    ensures t - t0 >= ticks
  {
    hide Phase, Counter, Threshold, Elapsed24;
    ExitExactly(f, t0, t, ticks);
    PhaseAtMost(f, t - t0);
  }

  /** And no poll in the rest of the period is missed. */
  lemma EndsInPeriod(f: Rate, t0: nat, t: nat, ticks: nat)
    requires t0 <= t && ticks < t - t0 < Period(f)
    ensures Elapsed24(Counter(f, t0), Counter(f, t)) > Threshold(f, ticks, Counter(f, t0))
  {
    hide Phase, Counter, Threshold, Elapsed24;
    ExitExactly(f, t0, t, ticks);
    PhaseAtMost(f, t - t0);
  }
}
