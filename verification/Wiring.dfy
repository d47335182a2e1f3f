/** `wiring.c`: `SysTickIntHandler`, `micros`, `delayMicroseconds` and `delay` over a running counter. */
module Wiring {
  import Arithmetic
  import opened SysTickTime
  import opened Waiting

  class Clock {
    const f: Rate
    var now: nat               // ticks since the counter was started
    var milliseconds: nat
    var plan: seq<nat>

    ghost predicate Valid()
      reads this
    {
      milliseconds == Reloads(f, now) % U32
    }

    constructor (f: Rate, plan: seq<nat>)
      ensures Valid() && this.f == f && now == 0 && this.plan == plan
    {
      this.f, this.plan := f, plan;
      now, milliseconds := 0, 0;
    }

    method SysTickIntHandler()
      modifies this`milliseconds
      ensures milliseconds == (old(milliseconds) + 1) % U32
    {
      milliseconds := (milliseconds + 1) % U32;
    }

    /** Time passes; the handler runs at every reload. */
    method Advance(n: nat)
      requires Valid()
      modifies this`now, this`milliseconds
      ensures Valid() && now == old(now) + n
    {
      hide Reloads;
      for k := 0 to n
        invariant Valid() && now == old(now) + k
      {
        TickOver(f, now);
        now := now + 1;
        if Phase(f, now) == 0 {
          SysTickIntHandler();
        }
      }
    }

    method Pause() returns (ok: bool)
      requires Valid()
      modifies this
      ensures Valid() && ok == (old(plan) != [])
      ensures ok ==> plan == old(plan)[1..] && now == old(now) + old(plan)[0]
      ensures !ok ==> plan == [] && now == old(now)
    {
      ok := plan != [];
      if ok {
        var gap := plan[0];
        plan := plan[1..];
        Advance(gap);
      }
    }

    /**
     The result is the true time, modulo 2^32 microseconds, of the tick at which the counter was sampled, for
     every placement of the interrupt among the three reads that are less than 2^31 milliseconds apart. The
     second attempt succeeds when the reads of the first two fall within one period.
     */
    method MicrosNow() returns (done: bool, r: nat, ghost sampled: nat)
      requires Valid() && Dense(plan, Period(f) * 0x7FFF_FFFF)
      modifies this
      ensures Valid() && old(now) <= now
      ensures done ==> old(now) <= sampled <= now && r == Micros(f, sampled) % U32
      ensures !done ==> plan == []
      ensures TwoAttempts(f, old(plan)) ==> done && |plan| + 6 >= |old(plan)|
    {
      hide Reloads, Micros, Counter;
      r, sampled := 0, now;
      ghost var attempt, start := 0, 0;
      while true
        invariant Valid() && old(now) <= now
        invariant Dense(plan, Period(f) * 0x7FFF_FFFF)
        invariant attempt == 0 ==> plan == old(plan) && now == old(now)
        invariant attempt == 1 ==> FirstFailed(f, old(now), old(plan), now, plan)
        invariant attempt >= 2 ==> !TwoAttempts(f, old(plan))
        decreases |plan|
      {
        ghost var before, left := now, plan;
        done := Pause();
        if !done { return; }
        var m := milliseconds;
        ghost var first := now;
        done := Pause();
        if !done { return; }
        var val := Counter(f, now);
        sampled := now;
        done := Pause();
        if !done { return; }
        assert plan == left[3..];
        if m == milliseconds {
          StableRead(f, first, sampled, now);
          ReadingExactly(f, Reloads(f, sampled), sampled);
          r := Reading(f, m, val);
          return;
        }
        ReloadsMono(f, first, now);
        if attempt == 1 && TwoAttempts(f, old(plan)) {
          SecondSucceeds(f, old(now), old(plan), before, left);
        }
        attempt := attempt + 1;
      }
    }

    /** Never early, and late by a bounded time when polled regularly. */
    method DelayMicroseconds(us: nat, ghost gap: nat) returns (done: bool)
      requires Valid() && us < U32
      modifies this
      ensures Valid() && Outcome(done, now, plan) == DelayedMicros(f, us, old(now), old(plan))
      ensures old(now) <= now && (if done then now - old(now) >= us * f else plan == [])
      ensures gap < f && Dense(old(plan), gap) ==> now - old(now) <= Latest(f, us, gap)
      decreases if us > 999 then 2 else 0
    {
      hide Poll, Reloads;
      MicrosWait(f, us, now, plan);
      if gap < f && Dense(plan, gap) { MicrosEnd(f, us, now, plan, gap); }
      hide Halves, Short;
      var rest := us;
      if us > 1000000 / 1000 - 1 {
        done := Delay(us / 1000, 0);
        if !done { return; }
        rest := us % 1000;
      }
      done := DelayShort(rest, 0);
    }

    /**
     The sub-millisecond wait. Polled at least every `gap` ticks, with `gap` small enough for the rest of the
     period, it is late by at most `gap` ticks after the counter was first read.
     */
    method DelayShort(us: nat, ghost gap: nat) returns (done: bool)
      requires Valid() && us < 1000
      modifies this
      ensures Valid() && Outcome(done, now, plan) == Short(f, us, old(now), old(plan))
      ensures done ==> now - old(now) >= us * f
      ensures !done ==> plan == []
      ensures old(plan) != [] && us * f + gap < Period(f) && Dense(old(plan), gap) ==>
                var t0 := old(now) + old(plan)[0]; now - t0 <= us * f + (if done then gap else 0)
    {
      hide Poll, Reloads;
      ShortWaits(f, us, now, plan);
      ShortFits(f, us);
      if plan != [] && us * f + gap < Period(f) && Dense(plan, gap) {
        PollEnds(f, now + plan[0], us * f, now + plan[0], plan[1..], gap);
      }
      done := Pause();
      if !done { return; }
      done := PollUntil(us * f);
    }

    method PollUntil(ticks: nat) returns (done: bool)
      requires Valid() && ticks < Period(f)
      modifies this
      ensures Valid() && Outcome(done, now, plan) == Poll(f, old(now), ticks, old(now), old(plan))
    {
      hide Reloads, Counter, Elapsed24;
      var startTime := Counter(f, now);
      var threshold := Threshold(f, ticks, startTime);
      while true
        invariant Valid()
        invariant Poll(f, old(now), ticks, now, plan) == Poll(f, old(now), ticks, old(now), old(plan))
        decreases |plan|
      {
        done := Pause();
        if !done { return; }
        var elapsedTime := Elapsed24(startTime, Counter(f, now));
        if !(elapsedTime <= threshold) { return; }
      }
    }

    /** Half a millisecond at a time; the number of times is computed in 32 bits. */
    method Delay(ms: nat, ghost gap: nat) returns (done: bool)
      requires Valid() && ms < U32
      modifies this
      ensures Valid() && Outcome(done, now, plan) == Delayed(f, ms, old(now), old(plan))
      ensures old(now) <= now && (!done ==> plan == [])
      ensures done && ms < 0x8000_0000 ==> now - old(now) >= ms * Period(f)
      ensures ms == 0x8000_0000 ==> done && now == old(now)
      ensures gap < 500 * f && Dense(old(plan), gap) ==> now - old(now) <= (ms * 2 % U32) * (500 * f + 2 * gap)
      decreases 1
    {
      hide Short, Reloads;
      DelayBounds(f, ms, now, plan, gap);
      var n := ms * 2 % U32;
      for i := 0 to n
        invariant Valid()
        invariant Halves(f, n - i, now, plan) == Delayed(f, ms, old(now), old(plan))
      {
        done := DelayMicroseconds(500, 0);
        if !done { return; }
      }
      done := true;
    }
  }

  lemma DelayBounds(f: Rate, ms: nat, now: nat, plan: seq<nat>, gap: nat)
    requires ms < U32
    ensures var o := Delayed(f, ms, now, plan);
            && now <= o.now && (!o.done ==> o.plan == [])
            && (o.done && ms < 0x8000_0000 ==> o.now - now >= ms * Period(f))
            && (ms == 0x8000_0000 ==> o.done && o.now == now)
            && (gap < 500 * f && Dense(plan, gap) ==> o.now - now <= (ms * 2 % U32) * (500 * f + 2 * gap))
  {
    hide Halves;
    Doubled(ms);
    HalvesWait(f, ms * 2 % U32, now, plan);
    if gap < 500 * f && Dense(plan, gap) { HalvesEnd(f, ms * 2 % U32, now, plan, gap); }
    if ms == 0x8000_0000 { ReturnsAtOnce(f, now, plan); }
    assert ms * 2 * (500 * f) == ms * Period(f);
  }

  lemma TickOver(f: Rate, now: nat)
    ensures Reloads(f, now + 1) == if Phase(f, now + 1) == 0 then Reloads(f, now) + 1 else Reloads(f, now)
    ensures (Reloads(f, now) % U32 + 1) % U32 == (Reloads(f, now) + 1) % U32
  {
    hide Reloads, Phase, Period;
    Split(f, now);
    var q, r, n := Reloads(f, now), Phase(f, now), Period(f);
    if r + 1 < n {
      SplitIs(f, now + 1, q, r + 1);
    } else {
      assert (q + 1) * n == q * n + n;
      SplitIs(f, now + 1, q + 1, 0);
    }
    CountOn(q);
  }

  lemma CountOn(q: nat)
    ensures (q % U32 + 1) % U32 == (q + 1) % U32
  {
  }

  // ---- micros -----------------------------------------------------------------------------------------

  /** From the first read of one attempt to the last read of the next there is less than a period. */
  predicate TwoAttempts(f: Rate, plan: seq<nat>) {
    |plan| >= 6 && plan[1] + plan[2] + plan[3] + plan[4] + plan[5] < Period(f)
  }

  /** The first attempt has used three reads, with a reload among them. */
  ghost predicate FirstFailed(f: Rate, now: nat, plan: seq<nat>, now': nat, plan': seq<nat>) {
    && |plan| >= 3 && plan' == plan[3..] && now' == now + plan[0] + plan[1] + plan[2]
    && Reloads(f, now + plan[0]) < Reloads(f, now')
  }

  lemma SecondSucceeds(f: Rate, now: nat, plan: seq<nat>, now': nat, plan': seq<nat>)
    requires TwoAttempts(f, plan) && FirstFailed(f, now, plan, now', plan')
    ensures |plan'| >= 3
    ensures Reloads(f, now' + plan'[0]) == Reloads(f, now' + plan'[0] + plan'[1] + plan'[2])
  {
    hide Reloads;
    var first, last := now + plan[0], now' + plan'[0] + plan'[1] + plan'[2];
    ReloadsWithin(f, first, last, 1);
    ReloadsMono(f, now', now' + plan'[0]);
    ReloadsMono(f, now' + plan'[0], last);
  }

  /** Successive readings: the time never runs backwards, and their difference modulo 2^32 is the elapsed time. */
  lemma MicrosElapsed(f: Rate, t: nat, t': nat)
    requires t <= t'
    ensures Micros(f, t) <= Micros(f, t')
    ensures Micros(f, t') - Micros(f, t) < U32 ==>
              (Micros(f, t') % U32 - Micros(f, t) % U32) % U32 == Micros(f, t') - Micros(f, t)
  {
    DivMono(f, t + 1, t' + 1);
    hide Micros;
    ModDifference(Micros(f, t), Micros(f, t'));
  }

  lemma DivMono(f: Rate, a: nat, b: nat)
    requires a <= b
    ensures a / f <= b / f
  {
    var p, q := a / f, b / f;
    assert a == p * f + a % f && b == q * f + b % f;
    if q < p { Arithmetic.MulGap(q, p, f); }
  }

  lemma ModDifference(a: nat, b: nat)
    requires a <= b
    ensures b - a < U32 ==> (b % U32 - a % U32) % U32 == b - a
  {
  }
}
