/** `CANBitRateSet`: the search for a bit-timing, the registers it writes, and what they decode to. */
module CanBitRate {
  import opened Arithmetic

  const MAX_BIT_DIVISOR: nat := 19
  const MIN_BIT_DIVISOR: nat := 4
  const MAX_PRE_DIVISOR: nat := 1024
  const MAX_RATIO: nat := 19456      // MAX_PRE_DIVISOR * MAX_BIT_DIVISOR

  type Bits = d: nat | MIN_BIT_DIVISOR <= d <= MAX_BIT_DIVISOR witness 4

  // ---- the registers ---------------------------------------------------------------------------

  /** CAN_BIT_VALUE: TSEG1 is 4 bits from bit 8, TSEG2 3 bits from bit 12, SJW 2 bits from bit 6. */
  function BitValue(seg1: nat, seg2: nat, sjw: nat): nat
    requires seg1 > 0 && seg2 > 0 && sjw > 0
  {
    (seg1 - 1) % 16 * 0x100 + (seg2 - 1) % 8 * 0x1000 + (sjw - 1) % 4 * 0x40
  }

  datatype Segments = Segments(seg1: nat, seg2: nat, sjw: nat)

  /** The table of bit timings, for 4 to 19 quanta a bit. */
  const BIT_VALUES: seq<Segments> := [
    Segments(2, 1, 1), Segments(3, 1, 1), Segments(3, 2, 2), Segments(4, 2, 2),
    Segments(4, 3, 3), Segments(5, 3, 3), Segments(5, 4, 4), Segments(6, 4, 4),
    Segments(6, 5, 4), Segments(7, 5, 4), Segments(7, 6, 4), Segments(8, 6, 4),
    Segments(8, 7, 4), Segments(9, 7, 4), Segments(9, 8, 4), Segments(10, 8, 4)]

  function TableValue(d: Bits): nat {
    TableEntry(d);
    var s := BIT_VALUES[d - MIN_BIT_DIVISOR];
    BitValue(s.seg1, s.seg2, s.sjw)
  }

  datatype Timing = Timing(phase2: nat, propPhase1: nat, sjw: nat, prescaler: nat)

  /** `CANBitTimingGet`. */
  function TimingGet(bit: nat, brpe: nat): Timing {
    Timing(bit / 0x1000 % 8 + 1, bit / 0x100 % 16 + 1, bit / 0x40 % 4 + 1, bit % 64 + brpe % 16 * 64 + 1)
  }

  /** The clocks per bit a timing stands for. */
  function Ratio(t: Timing): nat { (t.propPhase1 + t.phase2 + 1) * t.prescaler }

  /** The sample point: the second segment is one quantum short of half the bit, the rest comes before it. */
  function Phase2(d: Bits): nat { d / 2 - 1 }

  function Phase1(d: Bits): nat { (d + 1) / 2 }

  /** The largest jump the second segment and the field allow. */
  function Jump(d: Bits): nat { if Phase2(d) < 4 then Phase2(d) else 4 }

  /** The table's segments fit their fields, put the sample point in place, and with the synchronization quantum add up. */
  lemma TableEntry(d: Bits)
    ensures |BIT_VALUES| == 16 && BIT_VALUES[d - MIN_BIT_DIVISOR] == Segments(Phase1(d), Phase2(d), Jump(d))
    ensures 1 <= Phase1(d) <= 16 && 1 <= Phase2(d) <= 8 && 1 <= Jump(d) <= 4 && Phase1(d) + Phase2(d) + 1 == d
  {
    if d == 4 || d == 5 || d == 6 || d == 7 { }
    else if d == 8 || d == 9 || d == 10 || d == 11 { }
    else if d == 12 || d == 13 || d == 14 || d == 15 { }
  }

  lemma BitValueFields(seg1: nat, seg2: nat, sjw: nat)
    requires 1 <= seg1 <= 16 && 1 <= seg2 <= 8 && 1 <= sjw <= 4
    ensures var v := BitValue(seg1, seg2, sjw);
            v % 64 == 0 && v / 0x1000 % 8 + 1 == seg2 && v / 0x100 % 16 + 1 == seg1 && v / 0x40 % 4 + 1 == sjw
  {
    var a, b, c := seg1 - 1, seg2 - 1, sjw - 1;
    assert a % 16 == a && b % 8 == b && c % 4 == c;
    Fields(a, b, c);
    Remainders(a, b, c);
  }

  lemma Remainders(a: nat, b: nat, c: nat)
    requires a < 16 && b < 8 && c < 4
    ensures (a + 16 * b) % 16 == a && b % 8 == b && (c + 4 * (a + 16 * b)) % 4 == c
  {
  }

  lemma Fields(a: nat, b: nat, c: nat)
    requires a < 16 && b < 8 && c < 4
    ensures var v := a * 0x100 + b * 0x1000 + c * 0x40;
            v % 64 == 0 && v / 0x1000 == b && v / 0x100 == a + 16 * b && v / 0x40 == c + 4 * (a + 16 * b)
  {
  }

  /** The layout of the bit timing register: TSEG2 from bit 12, TSEG1 from bit 8, SJW from bit 6, all one less. */
  lemma RegisterIs(d: Bits)
    ensures TableValue(d) == 4096 * (Phase2(d) - 1) + 256 * (Phase1(d) - 1) + 64 * (Jump(d) - 1)
  {
    TableEntry(d);
  }

  /** What is written for divisor `d` and pre-divider `pre` reads back as `d` quanta and `pre` modulo 1024. */
  lemma WrittenReadsBack(d: Bits, pre: nat)
    requires pre > 0
    ensures var t := TimingGet(TableValue(d) + (pre - 1) % 64, (pre - 1) / 64 % 16);
            t == Timing(Phase2(d), Phase1(d), Jump(d), (pre - 1) % 1024 + 1)
  {
    hide BitValue;
    TableEntry(d);
    var s, low := BIT_VALUES[d - MIN_BIT_DIVISOR], (pre - 1) % 64;
    BitValueFields(s.seg1, s.seg2, s.sjw);
    HighBits(TableValue(d), low);
    SixAndFour(pre - 1);
  }

  lemma SixAndFour(n: nat)
    ensures n % 1024 == n % 64 + n / 64 % 16 * 64
  {
  }

  lemma HighBits(v: nat, low: nat)
    requires v % 64 == 0 && low < 64
    ensures (v + low) / 0x1000 == v / 0x1000 && (v + low) / 0x100 == v / 0x100 && (v + low) % 64 == low
  {
  }

  function WithBit(ctl: nat, bit: nat): nat
    requires bit > 0
  {
    if ctl / bit % 2 == 0 then ctl + bit else ctl
  }

  predicate Unlocked(ctl: nat) { ctl % 2 == 1 && ctl / 64 % 2 == 1 }

  lemma BitsSet(ctl: nat)
    ensures Unlocked(WithBit(WithBit(ctl, 0x01), 0x40))
  {
  }

  // ---- the search --------------------------------------------------------------------------------

  predicate Divides(d: nat, p: nat)
    requires d > 0
  {
    p % d == 0
  }

  predicate Realizable(p: nat) {
    exists d: Bits :: Divides(d, p)
  }

  /** The greatest usable divisor. */
  predicate Greatest(d: Bits, p: nat) {
    Divides(d, p) && forall e: Bits | e > d :: !Divides(e, p)
  }

  /** The first ratio tried: the bit rate must not come out above the requested one. */
  function StartRatio(clock: nat, rate: nat): nat
    requires rate > 0 && clock / rate >= MIN_BIT_DIVISOR
  {
    if clock / (clock / rate) > rate then clock / rate + 1 else clock / rate
  }

  /** The least realizable ratio from `start` on. */
  ghost predicate Chosen(start: nat, p: nat) {
    start <= p && Realizable(p) && forall q | start <= q < p :: !Realizable(q)
  }

  /** A multiple of 4 is never far. */
  lemma WithinFour(start: nat, p: nat)
    requires Chosen(start, p)
    ensures p < start + 4
  {
    var q := start + (4 - start % 4) % 4;
    assert q % 4 == 0;
    assert Divides(4, q) && Realizable(q);
  }

  lemma CeilingRealizable()
    ensures Realizable(MAX_RATIO)
  {
    assert Divides(19, MAX_RATIO);
  }

  class Controller {
    var ctl: nat
    var bit: nat
    var brpe: nat

    /** The hardware takes a new timing only with INIT and CCE set. */
    method SetBit(value: nat)
      requires Unlocked(ctl)
      modifies this`bit
      ensures bit == value
    {
      bit := value;
    }

    method SetBrpe(value: nat)
      requires Unlocked(ctl)
      modifies this`brpe
      ensures brpe == value
    {
      brpe := value;
    }

    /** Writes the timing in initialization mode and restores the control register. */
    method WriteTiming(d: Bits, pre: nat)
      requires pre > 0
      modifies this
      ensures ctl == old(ctl)
      ensures bit == TableValue(d) + (pre - 1) % 64 && brpe == (pre - 1) / 64 % 16
    {
      var saved := ctl;
      ctl := WithBit(WithBit(saved, 0x01), 0x40);    // INIT and CCE
      BitsSet(saved);
      SetBit(TableValue(d) + (pre - 1) % 64);
      SetBrpe((pre - 1) / 64 % 16);
      ctl := saved;
    }

    /** The outer loop: writes the timing of the least realizable ratio and returns it, or 0 past the limit. */
    method Search(start: nat) returns (p: nat, d: nat)
      requires start > 0
      modifies this
      ensures ctl == old(ctl)
      ensures start > MAX_RATIO ==> p == 0 && bit == old(bit) && brpe == old(brpe)
      ensures start <= MAX_RATIO ==>
                && Chosen(start, p) && start <= p <= MAX_RATIO
                && MIN_BIT_DIVISOR <= d <= MAX_BIT_DIVISOR && Greatest(d, p)
                && p >= d && Ratio(TimingGet(bit, brpe)) == BusRatio(p, d)
    {
      hide Realizable, Ratio, TimingGet, Greatest, TableValue;
      var desired := start;
      while desired <= MAX_RATIO
        invariant start <= desired && (start <= MAX_RATIO ==> desired <= MAX_RATIO + 1)
        invariant forall q | start <= q < desired :: !Realizable(q)
        invariant ctl == old(ctl) && bit == old(bit) && brpe == old(brpe)
        decreases MAX_RATIO + 1 - desired
      {
        var bits := GreatestDivisor(desired);
        if bits > 0 {
          WriteTiming(bits, desired / bits);
          return desired, bits;
        }
        desired := desired + 1;
      }
      CeilingRealizable();
      return 0, 0;
    }

    /**
     Picks the least realizable ratio and writes its timing; 0 with nothing written exactly when the first
     ratio is already past the limit. Below 4124 clocks a bit the registers hold the picked ratio, one of the
     first four, and the returned rate is not above the requested one.
     */
    method BitRateSet(clock: nat, rate: nat) returns (r: nat, ghost p: nat, ghost d: nat)
      requires 0 < rate && clock < 0x1_0000_0000 && MIN_BIT_DIVISOR <= clock / rate <= MAX_RATIO
      modifies this
      ensures ctl == old(ctl)
      ensures StartRatio(clock, rate) > MAX_RATIO ==> r == 0 && bit == old(bit) && brpe == old(brpe)
      ensures StartRatio(clock, rate) <= MAX_RATIO ==>
                && Chosen(StartRatio(clock, rate), p) && p <= MAX_RATIO
                && MIN_BIT_DIVISOR <= d <= MAX_BIT_DIVISOR && Greatest(d, p)
                && r == clock / p
                && p >= d && Ratio(TimingGet(bit, brpe)) == BusRatio(p, d)
      ensures if clock / rate == MAX_RATIO && clock / MAX_RATIO > rate then r == 0
              else Fastest(clock, rate, p) && r == clock / p
      ensures StartRatio(clock, rate) < 4124 ==>
                Ratio(TimingGet(bit, brpe)) == p < StartRatio(clock, rate) + 4 && r <= rate
    {
      hide Realizable, Ratio, TimingGet, StartRatio, Greatest, Chosen, BusRatio, Fastest;
      PastLimit(clock, rate);
      var start := FirstRatio(clock, rate);
      var ratio, bits := Search(start);
      p, d := ratio, bits;
      r := Achieved(clock, ratio);
      if start <= MAX_RATIO { ChosenIsFastest(clock, rate, p); }
      if start < 4124 { SmallRequests(clock, rate, p, d); }
    }
  }

  method Achieved(clock: nat, ratio: nat) returns (r: nat)
    ensures ratio == 0 ==> r == 0
    ensures ratio > 0 ==> r == clock / ratio
  {
    r := if ratio == 0 then 0 else clock / ratio;
  }

  method FirstRatio(clock: nat, rate: nat) returns (desired: nat)
    requires 0 < rate && MIN_BIT_DIVISOR <= clock / rate
    ensures desired == StartRatio(clock, rate) >= MIN_BIT_DIVISOR
  {
    desired := clock / rate;
    if clock / desired > rate {
      desired := desired + 1;
    }
  }

  /** The inner loop: the greatest divisor from 19 down to 4, or 0. */
  method GreatestDivisor(desired: nat) returns (bits: nat)
    requires desired > 0
    ensures bits == 0 <==> !Realizable(desired)
    ensures bits > 0 ==> MIN_BIT_DIVISOR <= bits <= MAX_BIT_DIVISOR && Greatest(bits, desired)
    ensures bits > 0 ==> (desired / bits) * bits == desired && desired / bits > 0
  {
    bits := MAX_BIT_DIVISOR;
    while bits >= MIN_BIT_DIVISOR
      invariant MIN_BIT_DIVISOR - 1 <= bits <= MAX_BIT_DIVISOR
      invariant forall e: Bits | e > bits :: !Divides(e, desired)
    {
      ExactQuotient(desired, bits);
      if (desired / bits) * bits == desired {
        return;
      }
      bits := bits - 1;
    }
    bits := 0;
  }

  lemma ExactQuotient(p: nat, d: nat)
    requires d > 0
    ensures (p / d) * d == p <==> Divides(d, p)
    ensures p > 0 && (p / d) * d == p ==> p / d > 0
  {
  }

  // ---- what the result means ---------------------------------------------------------------------------

  lemma DivLess(n: nat, d: nat, q: nat)
    requires d > 0
    ensures n / d <= q <==> n < (q + 1) * d
  {
    var k, r := n / d, n % d;
    assert n == k * d + r;
    if k <= q { MulMono(k, q, d); } else { MulMono(q + 1, k, d); }
    assert (q + 1) * d == q * d + d;
  }

  lemma MulMono(a: nat, b: nat, d: nat)
    requires a <= b
    ensures a * d <= b * d
  {
  }

  /** The returned rate is never above the requested one. */
  lemma RateNotAbove(clock: nat, rate: nat, p: nat)
    requires 0 < rate && MIN_BIT_DIVISOR <= clock / rate && Chosen(StartRatio(clock, rate), p)
    ensures clock / p <= rate
  {
    hide Realizable;
    var s := StartRatio(clock, rate);
    var q := clock / rate;
    DivLess(clock, rate, q);
    assert clock / s <= rate by {
      if s == q + 1 {
        Commute(q + 1, rate);
        DivLess(clock, s, rate);
        assert (rate + 1) * s == rate * s + s;
      }
    }
    DivLess(clock, s, rate);
    DivLess(clock, p, rate);
    Commute(rate + 1, s);
    Commute(rate + 1, p);
    MulMono(s, p, rate + 1);
  }

  /**
   The fastest rate that is not above the requested one, among the realizable ratios from the clock over the
   rate on.
   */
  ghost predicate Fastest(clock: nat, rate: nat, p: nat)
    requires rate > 0
  {
    && p > 0 && clock / rate <= p && Realizable(p) && clock / p <= rate
    && forall q | 0 < q && clock / rate <= q < p && Realizable(q) :: clock / q > rate
  }

  lemma ChosenIsFastest(clock: nat, rate: nat, p: nat)
    requires 0 < rate && MIN_BIT_DIVISOR <= clock / rate && Chosen(StartRatio(clock, rate), p)
    ensures Fastest(clock, rate, p)
  {
    hide Realizable;
    RateNotAbove(clock, rate, p);
  }

  /** The first ratio is past the limit only when the limit itself gives too high a rate. */
  lemma PastLimit(clock: nat, rate: nat)
    requires 0 < rate && MIN_BIT_DIVISOR <= clock / rate <= MAX_RATIO
    ensures StartRatio(clock, rate) > MAX_RATIO <==> clock / rate == MAX_RATIO && clock / MAX_RATIO > rate
  {
  }

  /** The clocks per bit in the registers after writing divisor `d` of the ratio `p`. */
  function BusRatio(p: nat, d: Bits): nat
    requires p >= d
  {
    Quotient(p, d);
    var pre := p / d - 1;
    Ratio(TimingGet(TableValue(d) + pre % 64, pre / 64 % 16))
  }

  lemma Quotient(p: nat, d: nat)
    requires p >= d > 0
    ensures p / d > 0
  {
    DivLess(p, d, 0);
  }

  /** The ratio itself if its pre-divider fits; otherwise at least 4096 clocks are missing. */
  lemma BusRatioIs(p: nat, d: Bits)
    requires p >= d && Divides(d, p)
    ensures BusRatio(p, d) > 0
    ensures p / d <= MAX_PRE_DIVISOR ==> BusRatio(p, d) == p
    ensures p / d > MAX_PRE_DIVISOR ==> BusRatio(p, d) + 4096 <= p
  {
    hide BusRatio;
    BusRatioOf(p, d);
    ExactQuotient(p, d);
    Lost(d, p / d);
  }

  lemma BusRatioOf(p: nat, d: Bits)
    requires p >= d
    ensures BusRatio(p, d) == d * ((p / d - 1) % 1024 + 1)
  {
    hide TimingGet, TableValue;
    Quotient(p, d);
    WrittenReadsBack(d, p / d);
  }

  lemma Lost(d: Bits, pre: nat)
    requires pre > 0
    ensures var bus := d * ((pre - 1) % 1024 + 1);
            bus > 0 && (pre <= 1024 ==> bus == pre * d) && (pre > 1024 ==> bus + 4096 <= pre * d)
  {
    var t := (pre - 1) % 1024 + 1;
    Commute(d, t);
    MulMono(1, t, d);
    if pre > 1024 {
      MulMono(t + 1024, pre, d);
      assert (t + 1024) * d == t * d + 1024 * d;
    }
  }

  /**
   The bus, clocked at `clock` over the ratio in the registers and not rounded down, runs faster than
   requested just when the pre-divider overflowed its field, or when the clock is no multiple of the rate, its
   rounded ratio is realizable and rounds back to the rate.
   */
  lemma BusFasterExactly(clock: nat, rate: nat, p: nat, d: Bits)
    requires 0 < rate && MIN_BIT_DIVISOR <= clock / rate && Chosen(StartRatio(clock, rate), p) && Greatest(d, p)
    ensures p >= d
    ensures BusRatio(p, d) * rate < clock <==>
            || p / d > MAX_PRE_DIVISOR
            || (clock % rate != 0 && Realizable(clock / rate) && clock / (clock / rate) == rate)
  {
    hide BusRatio, Realizable;
    Positive(p, d);
    BusRatioIs(p, d);
    if p / d > MAX_PRE_DIVISOR {
      OverflowFaster(clock, rate, p, BusRatio(p, d));
    } else {
      RoundingFaster(clock, rate, p);
    }
  }

  lemma Positive(p: nat, d: nat)
    requires p > 0 && d > 0 && Divides(d, p)
    ensures p >= d
  {
  }

  /** Losing 4096 clocks a bit outweighs the rounding up to the next realizable ratio. */
  lemma OverflowFaster(clock: nat, rate: nat, p: nat, bus: nat)
    requires 0 < rate && MIN_BIT_DIVISOR <= clock / rate && Chosen(StartRatio(clock, rate), p) && bus + 4096 <= p
    ensures bus * rate < clock
  {
    hide Realizable;
    WithinFour(StartRatio(clock, rate), p);
    Bracket(clock, rate);
    MulGap(bus, clock / rate, rate);
  }

  lemma RoundingFaster(clock: nat, rate: nat, p: nat)
    requires 0 < rate && MIN_BIT_DIVISOR <= clock / rate && Chosen(StartRatio(clock, rate), p)
    ensures p * rate < clock <==>
            clock % rate != 0 && Realizable(clock / rate) && clock / (clock / rate) == rate
  {
    hide Realizable;
    var q := clock / rate;
    Bracket(clock, rate);
    if p == q {
      RateNotAbove(clock, rate, p);
      AtLeast(clock, q, rate);
    } else {
      MulMono(q + 1, p, rate);
    }
  }

  lemma Bracket(clock: nat, rate: nat)
    requires rate > 0
    ensures (clock / rate) * rate <= clock < (clock / rate + 1) * rate
    ensures (clock / rate) * rate == clock <==> clock % rate == 0
  {
    var q := clock / rate;
    assert clock == q * rate + clock % rate && (q + 1) * rate == q * rate + rate;
  }

  lemma AtLeast(clock: nat, q: nat, rate: nat)
    requires q > 0 && q * rate <= clock
    ensures clock / q >= rate
  {
    Commute(q, rate);
    if rate > 0 { DivLess(clock, q, rate - 1); }
  }

  /** The first ratio whose pre-divider does not fit is 4124: every multiple of 4 below it has a larger divisor. */
  lemma SmallRatiosFit(p: nat, d: Bits)
    requires p < 4124 && Greatest(d, p)
    ensures p / d <= MAX_PRE_DIVISOR
  {
    DivLess(p, d, MAX_PRE_DIVISOR);
    Commute(MAX_PRE_DIVISOR + 1, d);
    if d >= 5 {
      MulMono(5, d, MAX_PRE_DIVISOR + 1);
    } else if p > 4096 {
      LargerDivisor(p);
    }
  }

  lemma LargerDivisor(p: nat)
    requires 4096 < p < 4124 && Divides(4, p)
    ensures exists e: Bits :: e > 4 && Divides(e, p)
  {
    var e: Bits := if p == 4100 || p == 4120 then 5 else if p == 4104 || p == 4116 then 6 else if p == 4108 then 13 else 8;
    assert Divides(e, p);
  }

  /**
   Requests for less than 4124 clocks a bit, which is what a caller can check: at most four ratios are tried,
   the registers hold the one found, and neither the returned rate is above the requested one nor, up to the
   rounding of a single hertz, the rate on the bus.
   */
  lemma SmallRequests(clock: nat, rate: nat, p: nat, d: Bits)
    requires 0 < rate && MIN_BIT_DIVISOR <= clock / rate && StartRatio(clock, rate) < 4124
    requires Chosen(StartRatio(clock, rate), p) && Greatest(d, p)
    ensures d <= p < StartRatio(clock, rate) + 4 && p < 4124
    ensures BusRatio(p, d) == p && clock / p <= rate && clock < p * (rate + 1)
  {
    hide BusRatio;
    var s := StartRatio(clock, rate);
    WithinFour(s, p);
    assert Divides(19, 4123) && Realizable(4123);
    Positive(p, d);
    SmallRatiosFit(p, d);
    BusRatioIs(p, d);
    RateNotAbove(clock, rate, p);
    DivLess(clock, p, rate);
    Commute(rate + 1, p);
  }

  /** Beyond, it may not: at 4.124 MHz and 1 kbit/s the controller is set to 28 clocks a bit instead of 4124. */
  lemma PrescalerOverflows()
    ensures StartRatio(4124000, 1000) == 4124 && Chosen(4124, 4124) && Greatest(4, 4124)
    ensures BusRatio(4124, 4) == 28
  {
    hide TimingGet, TableValue, Chosen, Greatest;
    OnlyFour();
    WrittenReadsBack(4, 1031);
    assert 4124 / 4 == 1031 && 1030 % 1024 == 6;
  }

  lemma OnlyFour()
    ensures Chosen(4124, 4124) && Greatest(4, 4124)
  {
    assert Divides(4, 4124) && Realizable(4124);
    forall e: Bits | e > 4
      ensures !Divides(e, 4124)
    {
      NoOtherDivisor(e);
    }
  }

  lemma NoOtherDivisor(e: Bits)
    requires e > 4
    ensures 4124 % e != 0
  {
    if e == 5 { assert 4124 == 824 * 5 + 4; }
    else if e == 6 { assert 4124 == 687 * 6 + 2; }
    else if e == 7 { assert 4124 == 589 * 7 + 1; }
    else if e == 8 { assert 4124 == 515 * 8 + 4; }
    else if e == 9 { assert 4124 == 458 * 9 + 2; }
    else if e == 10 { assert 4124 == 412 * 10 + 4; }
    else if e == 11 { assert 4124 == 374 * 11 + 10; }
    else if e == 12 { assert 4124 == 343 * 12 + 8; }
    else if e == 13 { assert 4124 == 317 * 13 + 3; }
    else if e == 14 { assert 4124 == 294 * 14 + 8; }
    else if e == 15 { assert 4124 == 274 * 15 + 14; }
    else if e == 16 { assert 4124 == 257 * 16 + 12; }
    else if e == 17 { assert 4124 == 242 * 17 + 10; }
    else if e == 18 { assert 4124 == 229 * 18 + 2; }
    else { assert e == 19 && 4124 == 217 * 19 + 1; }
  }
}
