/**
 What the waits of `wiring.c` do with a polling pattern. `plan` says how many ticks pass before each read of
 the counter, whatever the CPU does in between; a wait that is still polling when the plan runs out is not done.
 */
module Waiting {
  import opened Arithmetic
  import opened SysTickTime

  datatype Outcome = Outcome(done: bool, now: nat, plan: seq<nat>)

  /** The polling loop of `delayMicroseconds`, entered at tick `now` with the counter first read at `t0`. */
  function Poll(f: Rate, t0: nat, ticks: nat, now: nat, plan: seq<nat>): Outcome
    requires ticks < Period(f)
    decreases |plan|
  {
    if plan == [] then Outcome(false, now, [])
    else
      var t := now + plan[0];
      if Elapsed24(Counter(f, t0), Counter(f, t)) > Threshold(f, ticks, Counter(f, t0)) then Outcome(true, t, plan[1..])
      else Poll(f, t0, ticks, t, plan[1..])
  }

  /** `delayMicroseconds(us)` below a millisecond. */
  function Short(f: Rate, us: nat, now: nat, plan: seq<nat>): Outcome
    requires us < 1000
  {
    if plan == [] then Outcome(false, now, [])
    else ShortFits(f, us); Poll(f, now + plan[0], us * f, now + plan[0], plan[1..])
  }

  lemma ShortFits(f: Rate, us: nat)
    requires us < 1000
    ensures us * f < Period(f)
  {
    MulGap(us, 1000, f);
  }

  /** The loop of `delay`. */
  function Halves(f: Rate, n: nat, now: nat, plan: seq<nat>): Outcome
    decreases n
  {
    if n == 0 then Outcome(true, now, plan)
    else
      var o := Short(f, 500, now, plan);
      if o.done then Halves(f, n - 1, o.now, o.plan) else o
  }

  /** `delay(ms)`; its bound `ms * 2` is computed in 32 bits. */
  function Delayed(f: Rate, ms: nat, now: nat, plan: seq<nat>): Outcome {
    Halves(f, ms * 2 % U32, now, plan)
  }

  /** `delayMicroseconds(us)`. */
  function DelayedMicros(f: Rate, us: nat, now: nat, plan: seq<nat>): Outcome {
    if us < 1000 then Short(f, us, now, plan)
    else
      var o := Delayed(f, us / 1000, now, plan);
      if o.done then Short(f, us % 1000, o.now, o.plan) else o
  }

  ghost predicate Dense(plan: seq<nat>, gap: nat) {
    forall k | 0 <= k < |plan| :: plan[k] <= gap
  }

  /** A wait runs on until it is done or the plan is, and never ends before `least` ticks. */
  predicate Waits(o: Outcome, now: nat, least: nat) {
    now <= o.now && (if o.done then o.now - now >= least else o.plan == [])
  }

  /** Polled at least every `gap` ticks, it takes at most `most` ticks, done or not. */
  ghost predicate Ends(o: Outcome, now: nat, most: int, gap: nat) {
    now <= o.now <= now + most && Dense(o.plan, gap)
  }

  lemma {:induction false} PollWaits(f: Rate, t0: nat, ticks: nat, now: nat, plan: seq<nat>)
    requires ticks < Period(f) && t0 <= now
    ensures Waits(Poll(f, t0, ticks, now, plan), t0, ticks) && now <= Poll(f, t0, ticks, now, plan).now
    decreases |plan|
  {
    hide Counter, Elapsed24, Threshold;
    if plan != [] {
      var t := now + plan[0];
      if Elapsed24(Counter(f, t0), Counter(f, t)) > Threshold(f, ticks, Counter(f, t0)) {
        NeverEarly(f, t0, t, ticks);
      } else {
        PollWaits(f, t0, ticks, t, plan[1..]);
      }
    }
  }

  /** The exit is not missed while the rest of the period is longer than the polling gap. */
  lemma {:induction false} PollEnds(f: Rate, t0: nat, ticks: nat, now: nat, plan: seq<nat>, gap: nat)
    requires ticks + gap < Period(f) && t0 <= now <= t0 + ticks && Dense(plan, gap)
    ensures var o := Poll(f, t0, ticks, now, plan); Ends(o, t0, ticks + gap, gap) && (!o.done ==> o.now <= t0 + ticks)
    decreases |plan|
  {
    hide Counter, Elapsed24, Threshold;
    if plan != [] {
      var t := now + plan[0];
      if Elapsed24(Counter(f, t0), Counter(f, t)) <= Threshold(f, ticks, Counter(f, t0)) {
        if t > t0 + ticks { EndsInPeriod(f, t0, t, ticks); }
        PollEnds(f, t0, ticks, t, plan[1..], gap);
      }
    }
  }

  lemma ShortWaits(f: Rate, us: nat, now: nat, plan: seq<nat>)
    requires us < 1000
    ensures Waits(Short(f, us, now, plan), now, us * f)
  {
    hide Poll;
    if plan != [] {
      ShortFits(f, us);
      PollWaits(f, now + plan[0], us * f, now + plan[0], plan[1..]);
    }
  }

  lemma ShortEnds(f: Rate, us: nat, now: nat, plan: seq<nat>, gap: nat)
    requires us < 1000 && us * f + gap < Period(f) && Dense(plan, gap)
    ensures Ends(Short(f, us, now, plan), now, us * f + 2 * gap, gap)
  {
    hide Poll;
    if plan != [] {
      PollEnds(f, now + plan[0], us * f, now + plan[0], plan[1..], gap);
    }
  }

  lemma {:induction false} HalvesWait(f: Rate, n: nat, now: nat, plan: seq<nat>)
    ensures Waits(Halves(f, n, now, plan), now, n * (500 * f))
    decreases n
  {
    hide Short;
    if n > 0 {
      var o := Short(f, 500, now, plan);
      ShortWaits(f, 500, now, plan);
      assert n * (500 * f) == (n - 1) * (500 * f) + 500 * f;
      if o.done { HalvesWait(f, n - 1, o.now, o.plan); }
    }
  }

  lemma {:induction false} HalvesEnd(f: Rate, n: nat, now: nat, plan: seq<nat>, gap: nat)
    requires gap < 500 * f && Dense(plan, gap)
    ensures Ends(Halves(f, n, now, plan), now, n * (500 * f + 2 * gap), gap)
    decreases n
  {
    hide Short;
    if n > 0 {
      var o, m := Short(f, 500, now, plan), 500 * f + 2 * gap;
      ShortEnds(f, 500, now, plan, gap);
      assert n * m == (n - 1) * m + m;
      AtLeastZero(n - 1, m);
      if o.done { HalvesEnd(f, n - 1, o.now, o.plan, gap); }
    }
  }

  lemma AtLeastZero(a: nat, b: nat)
    ensures a * b >= 0
  {
  }

  // ---- delay ----------------------------------------------------------------------------------------

  /** The loop bound, in half milliseconds. */
  lemma Doubled(ms: nat)
    requires ms < U32
    ensures ms * 2 % U32 == if ms < 0x8000_0000 then ms * 2 else ms * 2 - U32
  {
  }

  /** Reads the counter at once and then half a millisecond and a tick later, `n` times. */
  function Steady(f: Rate, n: nat): seq<nat> {
    if n == 0 then [] else [0, 500 * f + 1] + Steady(f, n - 1)
  }

  lemma {:induction false} SteadyHalves(f: Rate, n: nat, now: nat)
    ensures Halves(f, n, now, Steady(f, n)) == Outcome(true, now + n * (500 * f + 1), [])
    decreases n
  {
    hide Short;
    if n > 0 {
      var rest := Steady(f, n - 1);
      SteadyShort(f, now, rest);
      SteadyHalves(f, n - 1, now + (500 * f + 1));
      assert n * (500 * f + 1) == (n - 1) * (500 * f + 1) + (500 * f + 1);
    }
  }

  lemma SteadyShort(f: Rate, now: nat, rest: seq<nat>)
    ensures Short(f, 500, now, [0, 500 * f + 1] + rest) == Outcome(true, now + (500 * f + 1), rest)
  {
    hide Counter, Elapsed24, Threshold;
    var plan := [0, 500 * f + 1] + rest;
    assert plan[1..] == [500 * f + 1] + rest;
    assert plan[1..][1..] == rest;
    EndsInPeriod(f, now, now + (500 * f + 1), 500 * f);
  }

  /** `delay` waits for all its milliseconds, under every polling pattern, exactly when their double fits 32 bits. */
  lemma DelayExactly(f: Rate, ms: nat)
    requires ms < U32
    ensures (forall now: nat, plan: seq<nat> ::
               var o := Delayed(f, ms, now, plan); o.done ==> o.now - now >= ms * Period(f)) <==> ms < 0x8000_0000
  {
    hide Halves;
    Doubled(ms);
    if ms < 0x8000_0000 {
      forall now: nat, plan: seq<nat>
        ensures Delayed(f, ms, now, plan).done ==> Delayed(f, ms, now, plan).now - now >= ms * Period(f)
      {
        HalvesWait(f, ms * 2, now, plan);
        assert ms * 2 * (500 * f) == ms * Period(f);
      }
    } else {
      TooShort(f, ms);
    }
  }

  /** Beyond, a regular polling pattern completes early. */
  lemma TooShort(f: Rate, ms: nat)
    requires 0x8000_0000 <= ms < U32
    ensures var o := Delayed(f, ms, 0, Steady(f, ms * 2 - U32)); o.done && o.now < ms * Period(f)
  {
    hide Halves;
    var n := ms * 2 - U32;
    Doubled(ms);
    SteadyHalves(f, n, 0);
    assert n * (500 * f + 1) == n * (500 * f) + n;
    assert ms * Period(f) == n * (500 * f) + U32 * (500 * f);
  }

  /** At 2^31 milliseconds the bound is 0 and `delay` returns at once. */
  lemma ReturnsAtOnce(f: Rate, now: nat, plan: seq<nat>)
    ensures Delayed(f, 0x8000_0000, now, plan) == Outcome(true, now, plan)
  {
    Doubled(0x8000_0000);
  }

  // ---- delayMicroseconds ------------------------------------------------------------------------------

  /** The milliseconds handed to `delay` and the rest add up, and their double fits. */
  lemma Parts(f: Rate, us: nat)
    requires us < U32
    ensures us / 1000 * 2 % U32 == us / 1000 * 2
    ensures (us / 1000 * 2) * (500 * f) + us % 1000 * f == us * f
  {
    var q, r := us / 1000, us % 1000;
    assert us == q * 1000 + r;
    assert (q * 2) * (500 * f) == (q * 1000) * f;
    assert (q * 1000 + r) * f == (q * 1000) * f + r * f;
  }

  lemma MicrosWait(f: Rate, us: nat, now: nat, plan: seq<nat>)
    requires us < U32
    ensures Waits(DelayedMicros(f, us, now, plan), now, us * f)
  {
    hide Short, Halves;
    if us < 1000 {
      ShortWaits(f, us, now, plan);
    } else {
      Parts(f, us);
      var o := Delayed(f, us / 1000, now, plan);
      HalvesWait(f, us / 1000 * 2, now, plan);
      if o.done { ShortWaits(f, us % 1000, o.now, o.plan); }
    }
  }

  /** Late by at most two polling gaps for each half millisecond and two for the rest. */
  function Latest(f: Rate, us: nat, gap: nat): int {
    us * f + (us / 1000 * 2 + 1) * (2 * gap)
  }

  lemma LatestIs(f: Rate, us: nat, gap: nat)
    requires us < U32
    ensures (us / 1000 * 2) * (500 * f + 2 * gap) + (us % 1000 * f + 2 * gap) == Latest(f, us, gap)
  {
    var n := us / 1000 * 2;
    Parts(f, us);
    Distribute(n, 500 * f, 2 * gap);
    assert (n + 1) * (2 * gap) == n * (2 * gap) + 2 * gap;
  }

  lemma Distribute(n: nat, a: nat, b: nat)
    ensures n * (a + b) == n * a + n * b
  {
  }

  lemma MicrosEnd(f: Rate, us: nat, now: nat, plan: seq<nat>, gap: nat)
    requires us < U32 && gap < f && Dense(plan, gap)
    ensures Ends(DelayedMicros(f, us, now, plan), now, Latest(f, us, gap), gap)
  {
    hide Short, Halves, Latest;
    LatestIs(f, us, gap);
    MulGap(us % 1000, 1000, f);
    if us < 1000 {
      ShortEnds(f, us, now, plan, gap);
    } else {
      var n := us / 1000 * 2;
      Parts(f, us);
      HalvesEnd(f, n, now, plan, gap);
      var o := Halves(f, n, now, plan);
      if o.done { ShortEnds(f, us % 1000, o.now, o.plan, gap); }
    }
  }
}
