/**
 `do_random`: the Park-Miller generator by Schrage's method, for every 32-bit state a sketch can set with
 `srandom`.
 */
module Random {

  const M: int := 0x7FFF_FFFF
  const A: int := 16807
  const Q: int := 127773
  const R: int := 2836

  newtype int32 = x: int | -0x8000_0000 <= x < 0x8000_0000
  newtype uint32 = x: int | 0 <= x < 0x1_0000_0000

  /** `long x = *ctx`. */
  function Signed(ctx: uint32): int32 {
    if ctx < 0x8000_0000 then ctx as int32 else (ctx as int - 0x1_0000_0000) as int32
  }

  /** C's division and remainder, which truncate toward zero. */
  function Quot(x: int32): int32 {
    if x >= 0 then (x as int / Q) as int32 else (-(-(x as int) / Q)) as int32
  }

  function Rem(x: int32): int32 {
    (x as int - Q * Quot(x) as int) as int32
  }

  /** The state the multiplication starts from: 0 is replaced. */
  function Seed(ctx: uint32): int {
    if ctx == 0 then 123459876 else Signed(ctx) as int
  }

  lemma Schrage(x: int, hi: int, lo: int)
    requires x == Q * hi + lo
    ensures A * lo - R * hi == A * x - M * hi
  {
    assert M == A * Q + R;
    assert A * x == A * Q * hi + A * lo;
  }

  lemma ModIs(n: int, k: int, r: int)
    requires n == M * k + r && 0 <= r < M
    ensures n % M == r
  {
  }

  /**
   One call: the 32-bit arithmetic never overflows, and the new state is 16807 times the old one modulo
   2^31 - 1, for every state, signed or not.
   */
  method DoRandom(ctx: uint32) returns (next: uint32, result: int32)
    ensures next as int == (A * Seed(ctx)) % M
    ensures result as int == next as int && 0 <= result as int < M
  {
    var x := Signed(ctx);
    if x == 0 {
      x := 123459876;
    }
    ghost var x0 := x as int;
    var hi := Quot(x);
    var lo := Rem(x);
    Parts(x);
    Schrage(x0, hi as int, lo as int);
    x := 16807 * lo - 2836 * hi;
    if x < 0 {
      x := x + 0x7FFF_FFFF;
      ModIs(A * x0, hi as int - 1, x as int);
    } else {
      ModIs(A * x0, hi as int, x as int);
    }
    next := x as uint32;
    result := (next % 0x8000_0000) as int32;
  }

  /** The two partial products stay within 32 bits. */
  lemma Parts(x: int32)
    ensures x as int == Q * Quot(x) as int + Rem(x) as int
    ensures x >= 0 ==> 0 <= Quot(x) as int <= 16807 && 0 <= Rem(x) as int < Q
    ensures x < 0 ==> -16807 <= Quot(x) as int <= 0 && -Q < Rem(x) as int <= 0
  {
  }

  // ---- runs ----------------------------------------------------------------------------------------

  /** The inverse of 16807 modulo 2^31 - 1. */
  const INVERSE: int := 1407677000

  lemma MulMod(a: int, b: int)
    ensures (a * b) % M == (a * (b % M)) % M
  {
    var q, r := b / M, b % M;
    assert a * b == M * (a * q) + a * r;
    ModShift(a * q, a * r);
  }

  lemma ModShift(k: int, r: int)
    ensures (M * k + r) % M == r % M
  {
    var q := r / M;
    assert M * k + r == M * (k + q) + r % M;
    ModIs(M * k + r, k + q, r % M);
  }

  /** Multiplying by 16807 can be undone. */
  lemma Undo(s: int)
    requires 0 <= s < M
    ensures (INVERSE * ((A * s) % M)) % M == s
  {
    MulMod(INVERSE, A * s);
    assert INVERSE * A == M * 11017 + 1;
    assert INVERSE * (A * s) == M * (11017 * s) + s;
    ModShift(11017 * s, s);
  }

  /** Different states have different successors, and no state but 0 leads to 0. */
  lemma Injective(s: int, t: int)
    requires 0 <= s < M && 0 <= t < M && (A * s) % M == (A * t) % M
    ensures s == t
  {
    Undo(s);
    Undo(t);
  }

  /** The states of a run that started with `srandom(seed)`, after `k` calls. */
  function State(seed: uint32, k: nat): (r: uint32) {
    if k == 0 then seed else ((A * Seed(State(seed, k - 1))) % M) as uint32
  }

  function Pow(b: int, k: nat): int {
    if k == 0 then 1 else b * Pow(b, k - 1)
  }

  /** 0 is reached by the first call, from the two seeds that are 0 modulo 2^31 - 1, and never otherwise. */
  lemma ZeroExactly(seed: uint32)
    ensures State(seed, 1) == 0 <==> seed == 0x7FFF_FFFF || seed == 0x8000_0001
  {
    var s := Seed(seed);
    assert State(seed, 1) as int == (A * Seed(State(seed, 0))) % M;
    MulMod(A, s);
    if (A * (s % M)) % M == 0 { Injective(s % M, 0); }
  }

  /**
   The closed form over whole runs: unless the first call gave 0, every later state is in 1..2^31-2 and the
   k-th is 16807^k times the seed, modulo 2^31 - 1.
   */
  lemma {:induction false} ClosedForm(seed: uint32, k: nat)
    requires k > 0 && State(seed, 1) != 0
    ensures State(seed, k) as int == (Pow(A, k) * Seed(seed)) % M
    ensures 0 < State(seed, k) as int < M
  {
    if k == 1 {
      assert State(seed, 1) as int == (A * Seed(State(seed, 0))) % M;
      assert Pow(A, 1) == A * Pow(A, 0);
    } else {
      ClosedForm(seed, k - 1);
      var s, p := State(seed, k - 1), Pow(A, k - 1) * Seed(seed);
      assert Seed(s) == s as int;
      MulMod(A, p);
      assert Pow(A, k) * Seed(seed) == A * p;
      if (A * s as int) % M == 0 { Injective(s as int, 0); }
    }
  }

  /** After a 0 the run goes on as one started with the substitute seed. */
  lemma {:induction false} AfterZero(seed: uint32, k: nat)
    requires State(seed, 1) == 0
    ensures k > 0 ==> State(seed, k + 1) == State(123459876, k)
  {
    if k == 1 {
      assert State(seed, 2) as int == (A * Seed(State(seed, 1))) % M;
      assert State(123459876, 1) as int == (A * Seed(State(123459876, 0))) % M;
    } else if k > 1 {
      AfterZero(seed, k - 1);
      assert State(seed, k + 1) as int == (A * Seed(State(seed, k))) % M;
    }
  }

  class Generator {
    var next: uint32
    ghost var seed: uint32
    ghost var calls: nat

    ghost predicate Valid()
      reads this
    {
      next == State(seed, calls)
    }

    constructor ()
      ensures Valid() && seed == 1 && calls == 0
    {
      next, seed, calls := 1, 1, 0;
    }

    method Srandom(s: uint32)
      modifies this
      ensures Valid() && seed == s && calls == 0
    {
      next, seed, calls := s, s, 0;
    }

    method Random() returns (r: int32)
      requires Valid()
      modifies this
      ensures Valid() && seed == old(seed) && calls == old(calls) + 1
      ensures r as int == State(seed, calls) as int
    {
      next, r := DoRandom(next);
      calls := calls + 1;
    }
  }
}
