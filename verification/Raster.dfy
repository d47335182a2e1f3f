/** `LCD_screen::line` and the outline of `LCD_screen::circle`: integer loops that plot the nearest pixels. */
module Raster {
  import opened Arithmetic

  newtype int16 = x: int | -0x8000 <= x < 0x8000

  datatype Point = Point(x: int, y: int)

  function Abs(a: int): nat { if a < 0 then -a else a }

  // ---- line --------------------------------------------------------------------------------------

  /** The minor coordinate after `k` of `dx` major steps: `k * dy / dx` rounded to nearest, halves down. */
  function Rounded(k: nat, dy: nat, dx: nat): nat
    requires dx > 0
  {
    (k * dy + (dx - 1) / 2) / dx
  }

  /** The loop's error term after `k` major and `m` minor steps. */
  ghost function Error(k: nat, dy: nat, dx: nat, m: nat): int {
    dx / 2 - k * dy + m * dx
  }

  lemma ErrorSteps(k: nat, dy: nat, dx: nat, m: nat)
    ensures Error(k + 1, dy, dx, m) == Error(k, dy, dx, m) - dy
    ensures Error(k + 1, dy, dx, m + 1) == Error(k, dy, dx, m) - dy + dx
  {
    assert (k + 1) * dy == k * dy + dy && (m + 1) * dx == m * dx + dx;
  }

  /** Kept within `0..dx`, the error term picks out the rounded quotient. */
  lemma RoundedIs(k: nat, dy: nat, dx: nat, m: nat)
    requires dx > 0 && 0 <= Error(k, dy, dx, m) < dx
    ensures m == Rounded(k, dy, dx)
  {
    var err := Error(k, dy, dx, m);
    var n := k * dy + (dx - 1) / 2;
    assert (dx - 1) / 2 == dx - 1 - dx / 2;
    assert n == m * dx + (dx - 1 - err);
    QuotientIs(n, dx, m, dx - 1 - err);
  }

  lemma RoundedBounds(k: nat, dy: nat, dx: nat)
    requires dx > 0
    ensures var m := Rounded(k, dy, dx); 2 * Abs(m * dx - k * dy) <= dx
  {
    var m, h := Rounded(k, dy, dx), (dx - 1) / 2;
    var n := k * dy + h;
    assert n == m * dx + n % dx;
    assert 0 <= n % dx < dx;
  }

  lemma RoundedEnds(dy: nat, dx: nat)
    requires dx > 0
    ensures Rounded(0, dy, dx) == 0 && Rounded(dx, dy, dx) == dy
  {
    QuotientIs((dx - 1) / 2, dx, 0, (dx - 1) / 2);
    QuotientIs(dx * dy + (dx - 1) / 2, dx, dy, (dx - 1) / 2);
  }

  lemma RoundedStep(k: nat, dy: nat, dx: nat)
    requires dx > 0 && dy <= dx
    ensures Rounded(k, dy, dx) <= Rounded(k + 1, dy, dx) <= Rounded(k, dy, dx) + 1
  {
    var m := Rounded(k, dy, dx);
    var n := k * dy + (dx - 1) / 2;
    var r := n % dx;
    assert n == m * dx + r;
    assert (k + 1) * dy + (dx - 1) / 2 == m * dx + (r + dy);
    if r + dy < dx {
      QuotientIs(n + dy, dx, m, r + dy);
    } else {
      assert n + dy == (m + 1) * dx + (r + dy - dx);
      QuotientIs(n + dy, dx, m + 1, r + dy - dx);
    }
  }

  function Steep(a: Point, b: Point): bool { Abs(b.y - a.y) > Abs(b.x - a.x) }

  function Swap(p: Point): Point { Point(p.y, p.x) }

  /** The number of major-axis steps. */
  function Steps(a: Point, b: Point): nat {
    if Steep(a, b) then Abs(b.y - a.y) else Abs(b.x - a.x)
  }

  /** The k-th pixel from `a`, the endpoint with the smaller `x`, on a line that is not steep. */
  function FlatPixel(a: Point, b: Point, k: nat): Point
    requires a.x < b.x
  {
    var m := Rounded(k, Abs(b.y - a.y), b.x - a.x);
    Point(a.x + k, if a.y < b.y then a.y + m else a.y - m)
  }

  function Flat(a: Point, b: Point): seq<Point>
    requires a.x < b.x
  {
    seq(b.x - a.x + 1, k requires 0 <= k => FlatPixel(a, b, k))
  }

  function Flipped(points: seq<Point>): seq<Point> {
    seq(|points|, k requires 0 <= k < |points| => Swap(points[k]))
  }

  function Ordered(a: Point, b: Point): seq<Point>
    requires a.x != b.x
  {
    if a.x < b.x then Flat(a, b) else Flat(b, a)
  }

  /** The pixels of the line, by rounding the ideal segment at each major step. */
  function LinePixels(a: Point, b: Point): seq<Point>
    requires a.x != b.x && a.y != b.y
  {
    if Steep(a, b) then Flipped(Ordered(Swap(a), Swap(b))) else Ordered(a, b)
  }

  // ---- the loop in 16 bits -------------------------------------------------------------------------

  /** A value kept in an `int16_t`. */
  function Wrap16(x: int): int { (x + 0x8000) % 0x1_0000 - 0x8000 }

  predicate Fits16(x: int) { -0x8000 <= x < 0x8000 }

  lemma WrapIs(x: int)
    ensures Fits16(Wrap16(x)) && (Fits16(x) ==> Wrap16(x) == x)
    ensures 0x8000 <= x < 0x1_8000 ==> Wrap16(x) == x - 0x1_0000
    ensures -0x1_8000 <= x < -0x8000 ==> Wrap16(x) == x + 0x1_0000
  {
  }

  /** Endpoints as the loop gets them: in order, at least as far apart along x as along y. */
  predicate Oriented(a: Point, b: Point) {
    a.x < b.x && a.y != b.y && Abs(b.y - a.y) <= b.x - a.x && Fits16(a.x) && Fits16(a.y) && Fits16(b.x) && Fits16(b.y)
  }

  /** The distance fits 16 bits, and the counter can pass the end. */
  predicate Drawable(a: Point, b: Point) { b.x - a.x <= 0x7FFF && b.x < 0x7FFF }

  /** Halving as in C. */
  function Half(d: int): int { if d >= 0 then d / 2 else -(-d / 2) }

  datatype Walk = Walk(x: int, y: int, err: int)

  function Across16(a: Point, b: Point): int { Wrap16(b.x - a.x) }

  function Down16(a: Point, b: Point): int { Wrap16(Abs(b.y - a.y)) }

  function StepOf(a: Point, b: Point): int { if a.y < b.y then 1 else -1 }

  function WalkNext(a: Point, b: Point, w: Walk): Walk {
    var err := Wrap16(w.err - Down16(a, b));
    if err < 0 then Walk(Wrap16(w.x + 1), Wrap16(w.y + StepOf(a, b)), Wrap16(err + Across16(a, b)))
    else Walk(Wrap16(w.x + 1), w.y, err)
  }

  /** The variables of the loop after `k` turns. */
  function WalkAt(a: Point, b: Point, k: nat): Walk {
    if k == 0 then Walk(a.x, a.y, Wrap16(Half(Across16(a, b)))) else WalkNext(a, b, WalkAt(a, b, k - 1))
  }

  /** The k-th pixel the loop plots. */
  function WalkPixel(a: Point, b: Point, k: nat): Point { Point(WalkAt(a, b, k).x, WalkAt(a, b, k).y) }

  /** The minor step after `k` turns, and the error term that goes with it. */
  ghost predicate WalkGood(a: Point, b: Point, k: nat, m: nat)
    requires a.x < b.x
  {
    var w, d, n := WalkAt(a, b, k), Abs(b.y - a.y), b.x - a.x;
    && m == Rounded(k, d, n) <= d && 0 <= w.err == Error(k, d, n, m) < n
    && w.x == a.x + k && w.y == a.y + m * StepOf(a, b)
  }

  lemma WalkStarts(a: Point, b: Point)
    requires Oriented(a, b) && Drawable(a, b)
    ensures WalkGood(a, b, 0, 0)
  {
    var d, n := Abs(b.y - a.y), b.x - a.x;
    WrapIs(n);
    WrapIs(n / 2);
    RoundedEnds(d, n);
  }

  /** While pixels are plotted nothing wraps, and the loop follows the rounded quotients. */
  lemma {:induction false} WalkIs(a: Point, b: Point, k: nat)
    requires Oriented(a, b) && Drawable(a, b) && k <= b.x - a.x
    ensures WalkGood(a, b, k, Rounded(k, Abs(b.y - a.y), b.x - a.x))
  {
    if k == 0 {
      WalkStarts(a, b);
    } else {
      WalkIs(a, b, k - 1);
      WalkOn(a, b, k - 1, Rounded(k - 1, Abs(b.y - a.y), b.x - a.x));
    }
  }

  lemma WalkOn(a: Point, b: Point, k: nat, m: nat)
    requires Oriented(a, b) && Drawable(a, b) && k < b.x - a.x && WalkGood(a, b, k, m)
    ensures WalkGood(a, b, k + 1, Rounded(k + 1, Abs(b.y - a.y), b.x - a.x))
  {
    var d, n, w := Abs(b.y - a.y), b.x - a.x, WalkAt(a, b, k);
    var m' := if w.err - d < 0 then m + 1 else m;
    ErrorSteps(k, d, n, m);
    assert 0 <= Error(k + 1, d, n, m') < n by { hide Error, Rounded; }
    RoundedIs(k + 1, d, n, m');
    RoundedMost(k + 1, d, n);
    hide Rounded, Error, Wrap16, WalkAt;
    NoWrap(a, b, w, k, m, m');
    WalkUnfold(a, b, k);
    assert WalkGood(a, b, k + 1, m');
  }

  lemma WalkUnfold(a: Point, b: Point, k: nat)
    ensures WalkAt(a, b, k + 1) == WalkNext(a, b, WalkAt(a, b, k))
  {
  }

  lemma NoWrap(a: Point, b: Point, w: Walk, k: nat, m: nat, m': nat)
    requires Oriented(a, b) && Drawable(a, b) && k < b.x - a.x && m' <= Abs(b.y - a.y)
    requires 0 <= w.err < b.x - a.x && w.x == a.x + k && w.y == a.y + m * StepOf(a, b)
    requires m' == if w.err - Abs(b.y - a.y) < 0 then m + 1 else m
    ensures var d, n := Abs(b.y - a.y), b.x - a.x;
            WalkNext(a, b, w) == Walk(a.x + k + 1, a.y + m' * StepOf(a, b), w.err - d + (if m' == m then 0 else n))
  {
    hide Wrap16;
    var d, n := Abs(b.y - a.y), b.x - a.x;
    WrapIs(d);
    WrapIs(n);
    WrapIs(w.err - d);
    WrapIs(w.err - d + n);
    WrapIs(w.x + 1);
    WrapIs(w.y + StepOf(a, b));
  }

  /** The loop for endpoints in order, drawing `(x, y)` or `(y, x)`. */
  method DrawFlat(a: Point, b: Point, flag: bool) returns (points: seq<Point>)
    requires Oriented(a, b) && Drawable(a, b)
    ensures points == if flag then Flipped(Flat(a, b)) else Flat(a, b)
  {
    hide Wrap16, Rounded, Error;
    var wx1, wx2, wy1, wy2 := a.x, b.x, a.y, b.y;
    var dx := Wrap16(wx2 - wx1);
    var dy := Wrap16(Abs(wy2 - wy1));
    var err := Wrap16(Half(dx));
    var ystep := if wy1 < wy2 then 1 else -1;
    points := [];
    ghost var n := b.x - a.x;
    WalkIs(a, b, 0);
    while wx1 <= wx2
      invariant |points| <= n + 1 && wx1 == a.x + |points| && Walk(wx1, wy1, err) == WalkAt(a, b, |points|)
      invariant forall j | 0 <= j < |points| :: points[j] == if flag then Swap(FlatPixel(a, b, j)) else FlatPixel(a, b, j)
      decreases n + 1 - |points|
    {
      WalkIs(a, b, |points|);
      SignedStep(a, b, Rounded(|points|, Abs(b.y - a.y), n));
      WalkUnfold(a, b, |points|);
      WrapIs(wx1 + 1);
      points := points + [if flag then Point(wy1, wx1) else Point(wx1, wy1)];
      err := Wrap16(err - dy);
      if err < 0 {
        wy1 := Wrap16(wy1 + ystep);
        err := Wrap16(err + dx);
      }
      wx1 := Wrap16(wx1 + 1);
    }
  }

  lemma SignedStep(a: Point, b: Point, m: nat)
    ensures a.y + m * StepOf(a, b) == if a.y < b.y then a.y + m else a.y - m
  {
  }

  /** The counter passes the end exactly when the end is not the largest 16-bit value; otherwise the loop never ends. */
  lemma LoopEndsExactly(a: Point, b: Point)
    requires Oriented(a, b)
    ensures (exists k: nat :: WalkPixel(a, b, k).x > b.x) <==> b.x < 0x7FFF
  {
    hide Wrap16;
    if b.x < 0x7FFF {
      WalkAcross(a, b, b.x - a.x + 1);
      assert WalkPixel(a, b, b.x - a.x + 1).x > b.x;
    } else {
      forall k: nat
        ensures WalkPixel(a, b, k).x <= b.x
      {
        WalkFits(a, b, k);
      }
    }
  }

  lemma {:induction false} WalkAcross(a: Point, b: Point, k: nat)
    requires Fits16(a.x + k) && Fits16(a.x)
    ensures WalkAt(a, b, k).x == a.x + k
  {
    hide Wrap16;
    if k > 0 {
      WalkAcross(a, b, k - 1);
      WrapIs(a.x + k);
    }
  }

  lemma WalkFits(a: Point, b: Point, k: nat)
    requires Fits16(a.x)
    ensures Fits16(WalkAt(a, b, k).x)
  {
    hide Wrap16;
    if k > 0 { WrapIs(WalkAt(a, b, k - 1).x + 1); }
  }

  /** Endpoints more than 32767 apart: the first or the second pixel after the start is already off the line. */
  lemma FarApart(a: Point, b: Point)
    requires Oriented(a, b) && b.x - a.x > 0x7FFF
    ensures !Near(a, b, WalkPixel(a, b, 1)) || !Near(a, b, WalkPixel(a, b, 2))
  {
    var d, n := Abs(b.y - a.y), b.x - a.x;
    FarMoves(a, b);
    FarCross(a, b, 1, if 2 * d <= n + 1 then 1 else 0);
    FarCross(a, b, 2, 2);
  }

  /** The rows of the first two pixels: the first row is left just when it should not be. */
  lemma FarMoves(a: Point, b: Point)
    requires Oriented(a, b) && b.x - a.x > 0x7FFF
    ensures var d, n := Abs(b.y - a.y), b.x - a.x;
            && WalkPixel(a, b, 1) == Point(a.x + 1, a.y + (if 2 * d <= n + 1 then 1 else 0) * StepOf(a, b))
            && (n <= 2 * d <= n + 1 ==> WalkPixel(a, b, 2) == Point(a.x + 2, a.y + 2 * StepOf(a, b)))
  {
    hide Wrap16, Half;
    var d, n := Abs(b.y - a.y), b.x - a.x;
    FarErrors(n, d);
    WrapIs(n);
    WrapIs(a.x + 1);
    WrapIs(a.x + 2);
    WrapIs(a.y + StepOf(a, b));
    WrapIs(a.y + 2 * StepOf(a, b));
    WalkUnfold(a, b, 0);
    WalkUnfold(a, b, 1);
  }

  /** The error terms of the first two turns. */
  lemma FarErrors(n: int, d: int)
    requires 0x8000 <= n <= 0xFFFF && 1 <= d <= n
    ensures var dx, dy := n - 0x1_0000, Wrap16(d);
            var e0 := Wrap16(Half(dx));
            var e1 := Wrap16(e0 - dy);
            && (e1 < 0 <==> 2 * d <= n + 1)
            && (n <= 2 * d <= n + 1 ==> Wrap16(Wrap16(e1 + dx) - dy) < 0)
  {
    hide Wrap16;
    var dx, dy := n - 0x1_0000, Wrap16(d);
    WrapIs(d);
    WrapIs(Half(dx));
    var e0 := Wrap16(Half(dx));
    assert e0 == if n % 2 == 0 then n / 2 - 0x8000 else (n + 1) / 2 - 0x8000;
    WrapIs(e0 - dy);
    var e1 := Wrap16(e0 - dy);
    if n <= 2 * d <= n + 1 {
      assert e1 == -0x8000;
      WrapIs(e1 + dx);
      WrapIs(n - 0x8000 - dy);
    }
  }

  lemma FarCross(a: Point, b: Point, k: nat, m: nat)
    requires a.x < b.x
    ensures var d, n := Abs(b.y - a.y), b.x - a.x;
            Abs(Cross(a, b, Point(a.x + k, a.y + m * StepOf(a, b)))) == Abs(k * d - m * n)
  {
    var d: int, n: int := Abs(b.y - a.y), b.x - a.x;
    if a.y >= b.y {
      Negated(k, d);
      Negated(m, n);
    }
  }

  /** The loop ends, with every pixel within half a pixel of the segment, exactly for drawable endpoints. */
  lemma WalkExactly(a: Point, b: Point)
    requires Oriented(a, b)
    ensures (exists k: nat :: WalkPixel(a, b, k).x > b.x) && (forall k: nat | k <= b.x - a.x :: Near(a, b, WalkPixel(a, b, k)))
            <==> Drawable(a, b)
  {
    hide WalkAt, Near;
    LoopEndsExactly(a, b);
    if b.x - a.x > 0x7FFF {
      FarApart(a, b);
    } else if b.x < 0x7FFF {
      forall k: nat | k <= b.x - a.x
        ensures Near(a, b, WalkPixel(a, b, k))
      {
        WalkIs(a, b, k);
        SignedStep(a, b, Rounded(k, Abs(b.y - a.y), b.x - a.x));
        FlatNear(a, b, k);
        assert WalkPixel(a, b, k) == FlatPixel(a, b, k);
      }
    }
  }

  lemma RoundedMost(k: nat, dy: nat, dx: nat)
    requires 0 < dx && k <= dx && dy <= dx
    ensures Rounded(k, dy, dx) <= dy
  {
    RoundedBounds(k, dy, dx);
    var m := Rounded(k, dy, dx);
    Commute(dx, dy);
    if k < dx { MulGap(k, dx, dy); }
    if m > dy { MulGap(dy, m, dx); }
  }

  datatype Drawing = Dot(p: Point) | Fill(a: Point, b: Point) | Pixels(points: seq<Point>)

  /** Coordinates are the 16-bit arguments as the code casts them, with the larger major one below 32767. */
  predicate InRange(a: Point, b: Point) {
    && Fits16(a.x) && Fits16(a.y) && Fits16(b.x) && Fits16(b.y) && Steps(a, b) <= 0x7FFF
    && (if Steep(a, b) then a.y < 0x7FFF && b.y < 0x7FFF else a.x < 0x7FFF && b.x < 0x7FFF)
  }

  method Line(a: Point, b: Point) returns (d: Drawing)
    requires a.x != b.x && a.y != b.y ==> InRange(a, b)
    ensures d == if a == b then Dot(a) else if a.x == b.x || a.y == b.y then Fill(a, b) else Pixels(LinePixels(a, b))
  {
    if a.x == b.x && a.y == b.y {
      return Dot(a);
    } else if a.x == b.x || a.y == b.y {
      return Fill(a, b);
    }
    var p, q := a, b;
    var flag := Abs(b.y - a.y) > Abs(b.x - a.x);
    if flag {
      p, q := Swap(p), Swap(q);
    }
    if p.x > q.x {
      p, q := q, p;
    }
    var points := DrawFlat(p, q, flag);
    return Pixels(points);
  }

  /** Twice the area spanned by `a`, `b` and `p`: the distance along the minor axis times the number of steps. */
  function Cross(a: Point, b: Point, p: Point): int {
    (p.x - a.x) * (b.y - a.y) - (p.y - a.y) * (b.x - a.x)
  }

  /** `p` is within half a pixel of the segment, measured along the minor axis. */
  predicate Near(a: Point, b: Point, p: Point) { 2 * Abs(Cross(a, b, p)) <= Steps(a, b) }

  /** Neighbours in the drawing: one step on the major axis, at most one on the minor axis. */
  predicate Adjacent(steep: bool, p: Point, q: Point) {
    if steep then q.y == p.y + 1 && Abs(q.x - p.x) <= 1 else q.x == p.x + 1 && Abs(q.y - p.y) <= 1
  }

  lemma FlatNear(a: Point, b: Point, k: nat)
    requires a.x < b.x && Abs(b.y - a.y) <= b.x - a.x
    ensures Near(a, b, FlatPixel(a, b, k))
  {
    hide Rounded;
    var n: int, d: int := b.x - a.x, Abs(b.y - a.y);
    var m: int := Rounded(k, d, n);
    RoundedBounds(k, d, n);
    if a.y < b.y {
      assert Cross(a, b, FlatPixel(a, b, k)) == k * d - m * n;
    } else {
      Negated(k, d);
      Negated(m, n);
      assert Cross(a, b, FlatPixel(a, b, k)) == k * (b.y - a.y) - (-m) * n;
    }
  }

  lemma Negated(x: int, y: int)
    ensures x * -y == -(x * y) && (-x) * y == -(x * y)
  {
  }

  lemma FlatEnds(a: Point, b: Point)
    requires a.x < b.x
    ensures FlatPixel(a, b, 0) == a && FlatPixel(a, b, b.x - a.x) == b
  {
    RoundedEnds(Abs(b.y - a.y), b.x - a.x);
  }

  lemma FlatAdjacent(a: Point, b: Point, k: nat)
    requires a.x < b.x && Abs(b.y - a.y) <= b.x - a.x
    ensures Adjacent(false, FlatPixel(a, b, k), FlatPixel(a, b, k + 1))
  {
    RoundedStep(k, Abs(b.y - a.y), b.x - a.x);
  }

  /** The mirrored and the reversed segment have the same cross products, up to sign. */
  lemma CrossMirrored(a: Point, b: Point, p: Point)
    ensures Abs(Cross(Swap(a), Swap(b), Swap(p))) == Abs(Cross(a, b, p))
    ensures Abs(Cross(b, a, p)) == Abs(Cross(a, b, p))
  {
    var u, v, s, t := p.x - a.x, b.y - a.y, p.y - a.y, b.x - a.x;
    assert Cross(b, a, p) == (u - t) * -v - (s - v) * -t == -(u * v - s * t);
    assert Cross(Swap(a), Swap(b), Swap(p)) == s * t - u * v;
  }

  ghost predicate GoodLine(a: Point, b: Point, points: seq<Point>, steep: bool, n: nat) {
    && |points| == n + 1
    && {points[0], points[n]} == {a, b}
    && (forall k | 0 <= k < n :: Adjacent(steep, points[k], points[k + 1]))
    && (forall k | 0 <= k <= n :: 2 * Abs(Cross(a, b, points[k])) <= n)
  }

  lemma OrderedGood(a: Point, b: Point)
    requires a.x != b.x && Abs(b.y - a.y) <= Abs(b.x - a.x)
    ensures GoodLine(a, b, Ordered(a, b), false, Abs(b.x - a.x))
  {
    hide FlatPixel, Cross;
    var p, q := if a.x < b.x then a else b, if a.x < b.x then b else a;
    var points, n := Flat(p, q), q.x - p.x;
    FlatEnds(p, q);
    forall k | 0 <= k < n ensures Adjacent(false, points[k], points[k + 1]) {
      FlatAdjacent(p, q, k);
    }
    forall k | 0 <= k <= n ensures 2 * Abs(Cross(a, b, points[k])) <= n {
      FlatNear(p, q, k);
      CrossMirrored(p, q, points[k]);
    }
  }

  /**
   Every pixel lies within half a pixel of the ideal segment, consecutive pixels are neighbours with one pixel
   per major step, and both endpoints are drawn; through the swap of axes and of endpoints.
   */
  lemma LineIsNearest(a: Point, b: Point)
    requires a.x != b.x && a.y != b.y
    ensures GoodLine(a, b, LinePixels(a, b), Steep(a, b), Steps(a, b))
  {
    hide Cross, Ordered;
    if Steep(a, b) {
      OrderedGood(Swap(a), Swap(b));
      var flat, points, n := Ordered(Swap(a), Swap(b)), LinePixels(a, b), Steps(a, b);
      assert points[0] == Swap(flat[0]) && points[n] == Swap(flat[n]);
      forall k | 0 <= k < n ensures Adjacent(true, points[k], points[k + 1]) {
        assert Adjacent(false, flat[k], flat[k + 1]);
      }
      forall k | 0 <= k <= n ensures 2 * Abs(Cross(a, b, points[k])) <= n {
        CrossMirrored(a, b, points[k]);
        assert Swap(points[k]) == flat[k];
      }
    } else {
      OrderedGood(a, b);
    }
  }

  /** Drawing from either end gives the same pixels in the same order. */
  lemma LineSymmetric(a: Point, b: Point)
    requires a.x != b.x && a.y != b.y
    ensures LinePixels(a, b) == LinePixels(b, a)
  {
  }

  // ---- circle --------------------------------------------------------------------------------------

  /** The decision variable of the midpoint algorithm at an octant point. */
  function Decision(x: int, y: int, r: int): int {
    x * x + 2 * x + 1 + y * y - y - r * r
  }

  /** No octant point in column `x` is nearer to the circle: `y - 1/2` and `y + 1/2` lie on either side of it. */
  predicate Nearest(x: int, y: int, r: int) {
    x * x + y * y - y <= r * r <= x * x + y * y + y
  }

  lemma Across(x: int, y: int, r: int)
    ensures Decision(x + 1, y, r) == Decision(x, y, r) + 2 * x + 3
    ensures Decision(x, y - 1, r) == Decision(x, y, r) - 2 * y + 2
    ensures Decision(x + 1, y - 1, r) == Decision(x, y, r) + 2 * x + 3 - 2 * y + 2
  {
    assert (x + 1) * (x + 1) == x * x + 2 * x + 1;
    assert (y - 1) * (y - 1) == y * y - 2 * y + 1;
  }

  /** The bounds in terms of the decision variable. */
  lemma NearestIs(x: int, y: int, r: int)
    ensures Nearest(x, y, r) <==> Decision(x, y, r) - 2 * x - 1 <= 0 <= Decision(x, y, r) - 2 * x - 1 + 2 * y
  {
  }

  /** Before the diagonal, `x` is below the radius over the square root of 2. */
  lemma BelowDiagonal(x: int, y: int, r: int)
    requires 0 <= x < y && 0 <= r <= 0x4000 && Decision(x, y, r) - 2 * x - 1 < 0
    ensures x < 11586
  {
    SquareMono(r, 0x4000);
    Product(x + 1, y);
    if x >= 11586 { SquareMono(11586, x); }
  }

  lemma SquareMono(a: int, b: int)
    requires 0 <= a <= b
    ensures a * a <= b * b
  {
  }

  /** y * (y - 1) grows with y. */
  lemma Product(a: int, y: int)
    requires 1 <= a <= y
    ensures a * a - a <= y * y - y
  {
    var d := y - a;
    assert y * y - y == a * a - a + d * (2 * a + d - 1);
    assert d * (2 * a + d - 1) >= 0;
  }

  /** One nearest point for each column 1, 2, ..., descending from the top by at most one row a column. */
  ghost predicate GoodOctant(points: seq<Point>, r: int) {
    && (forall k | 0 <= k < |points| :: points[k].x == k + 1 && Nearest(points[k].x, points[k].y, r))
    && (forall k | 0 <= k < |points| :: (var above := if k == 0 then r else points[k - 1].y; above - 1 <= points[k].y <= above))
  }

  lemma NoPoints(r: int)
    ensures GoodOctant([], r)
  {
  }

  lemma OctantNext(points: seq<Point>, r: int, p: Point)
    requires GoodOctant(points, r) && p.x == |points| + 1 && Nearest(p.x, p.y, r)
    requires var above := if points == [] then r else points[|points| - 1].y; above - 1 <= p.y <= above
    ensures GoodOctant(points + [p], r)
  {
    hide Nearest;
  }

  /** The variables of the loop agree with the point they stand for. */
  predicate OnTrack(x: int16, y: int16, f: int16, ddF_x: int16, ddF_y: int16, r: int) {
    && 0 <= y as int <= r <= 0x4000 && 0 <= x <= y + 1
    && ddF_x as int == 2 * x as int + 1 && ddF_y as int == -2 * y as int
    && f as int == Decision(x as int, y as int, r)
    && (x < y ==> f as int - 2 * x as int - 1 < 0)
    && f as int - 2 * x as int - 1 + 2 * y as int >= 0
  }

  /** One turn of the loop of `circle`: nothing overflows 16 bits. */
  method OctantStep(x: int16, y: int16, f: int16, ddF_x: int16, ddF_y: int16, ghost r: int)
    returns (x': int16, y': int16, f': int16, ddF_x': int16, ddF_y': int16)
    requires OnTrack(x, y, f, ddF_x, ddF_y, r) && x < y
    ensures OnTrack(x', y', f', ddF_x', ddF_y', r)
    ensures x' == x + 1 && y - 1 <= y' <= y && Nearest(x' as int, y' as int, r)
  {
    hide Decision, Nearest;
    x', y', f', ddF_x', ddF_y' := x, y, f, ddF_x, ddF_y;
    Across(x as int, y as int, r);
    BelowDiagonal(x as int, y as int, r);
    if f' >= 0 {
      y' := y' - 1;
      ddF_y' := ddF_y' + 2;
      f' := f' + ddF_y';
    }
    x' := x' + 1;
    ddF_x' := ddF_x' + 2;
    f' := f' + ddF_x';
    NearestIs(x' as int, y' as int, r);
  }

  lemma AtTop(r: int)
    ensures Decision(0, r, r) == 1 - r
  {
  }

  /** The loop of `circle` for one octant, for radii up to 16384, the largest whose double fits 16 bits. */
  method Octant(radius: nat) returns (points: seq<Point>)
    requires radius <= 0x4000
    ensures GoodOctant(points, radius)
    ensures if radius == 0 then points == [] else points != [] && var p := points[|points| - 1]; p.y <= p.x <= p.y + 1
  {
    hide Decision, Nearest, GoodOctant;
    var f: int16 := (1 - radius) as int16;
    var ddF_x: int16 := 1;
    var ddF_y: int16 := (-2 * radius) as int16;
    var x: int16, y: int16 := 0, radius as int16;
    points := [];
    AtTop(radius);
    NoPoints(radius);
    while x < y
      invariant OnTrack(x, y, f, ddF_x, ddF_y, radius)
      invariant |points| == x as int && GoodOctant(points, radius)
      invariant points != [] ==> radius > 0
      invariant if points == [] then y as int == radius else points[|points| - 1] == Point(x as int, y as int)
      decreases y - x
    {
      x, y, f, ddF_x, ddF_y := OctantStep(x, y, f, ddF_x, ddF_y, radius);
      var p := Point(x as int, y as int);
      OctantNext(points, radius, p);
      points := points + [p];
    }
  }
}
