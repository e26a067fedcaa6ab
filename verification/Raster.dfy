/** The two rasterisers of lcd.c as the sequences of points they plot. Coordinates are 16 bits wide in
    the rasterisers and 32 bits wide where points are drawn. */
module Raster {

  const COORD_SPAN: nat := 0x1_0000        // uint16_t
  const DRAWN_SPAN: nat := 0x1_0000_0000   // unsigned int
  const INT_MAX: int := 0x7fff_ffff

  datatype Point = Point(x: int, y: int)

  // ---------- Lines ----------

  function Abs(d: int): nat {
    if d >= 0 then d else -d
  }

  function Sign(d: int): int {
    if d >= 0 then 1 else -1
  }

  /** `c` moved by `i` in the direction of `d`. */
  function Moved(c: int, d: int, i: int): int {
    if d >= 0 then c + i else c - i
  }

  /** i * m and n * n by repeated addition, as the loops compute them. */
  function Times(i: nat, m: nat): nat {
    if i == 0 then 0 else Times(i - 1, m) + m
  }

  function Square(n: nat): nat {
    if n == 0 then 0 else Square(n - 1) + 2 * n - 1
  }

  lemma {:induction false} TimesIs(i: nat, m: nat)
    ensures Times(i, m) == i * m
  {
    if i > 0 {
      TimesIs(i - 1, m);
      assert (i - 1) * m + m == i * m;
    }
  }

  lemma {:induction false} SquareIs(n: nat)
    ensures Square(n) == n * n
  {
    if n > 0 {
      SquareIs(n - 1);
      assert (n - 1) * (n - 1) == n * n - 2 * n + 1;
    }
  }

  /** t / d by repeated subtraction. */
  function Quotient(t: nat, d: nat): nat
    requires 0 < d
  {
    if t < d then 0 else Quotient(t - d, d) + 1
  }

  lemma {:induction false} QuotientTimes(t: nat, d: nat)
    requires 0 < d
    ensures Times(Quotient(t, d), d) <= t < Times(Quotient(t, d), d) + d
  {
    if d <= t {
      QuotientTimes(t - d, d);
    }
  }

  /** How far the minor coordinate has moved at step `i` of a line that moves by `n` along its major axis
      and by `m` along the other: i * m / n, to the nearest integer, halves upwards. */
  function Rounded(n: nat, m: nat, i: nat): nat {
    if n == 0 then 0 else Quotient(2 * Times(i, m) + n, 2 * n)
  }

  lemma RoundedIs(n: nat, m: nat, i: nat)
    requires 0 < n
    ensures Rounded(n, m, i) == (2 * (i * m) + n) / (2 * n)
  {
    var t, d := 2 * (i * m) + n, 2 * n;
    TimesIs(i, m);
    QuotientTimes(t, d);
    TimesIs(Quotient(t, d), d);
    DivisionIs(Quotient(t, d), d, t - Quotient(t, d) * d);
  }

  /** The point with `u` on the major axis and `v` on the other; the major axis of a steep line is y. */
  function PointOf(u: int, v: int, steep: bool): Point {
    if steep then Point(v, u) else Point(u, v)
  }

  /** The point of step `i`: one step per major coordinate, the other coordinate rounded. */
  function Along(u0: int, v0: int, u1: int, v1: int, steep: bool, i: nat): Point {
    PointOf(Moved(u0, u1 - u0, i), Moved(v0, v1 - v0, Rounded(Abs(u1 - u0), Abs(v1 - v0), i)), steep)
  }

  /** The point of step `i` of the line. */
  function LineAt(x0: int, y0: int, x1: int, y1: int, i: nat): Point {
    if Abs(x1 - x0) > Abs(y1 - y0) then Along(x0, y0, x1, y1, false, i) else Along(y0, x0, y1, x1, true, i)
  }

  /** Steps from the first point to the last. */
  function Steps(x0: int, y0: int, x1: int, y1: int): nat {
    var dx, dy := Abs(x1 - x0), Abs(y1 - y0);
    if dx > dy then dx else dy
  }

  /** `k` is what the Bresenham loop has reached at step `i`, twice the distance to the true line being
      between -n and n. */
  ghost predicate Near(n: nat, m: nat, i: nat, k: nat) {
    0 <= 2 * Times(i, m) - 2 * Times(k, n) + n < 2 * n
  }

  lemma NearIsRounded(n: nat, m: nat, i: nat, k: nat)
    requires 0 < n && Near(n, m, i, k)
    ensures k == Rounded(n, m, i)
  {
    RoundedIsNear(n, m, i);
    var r := Rounded(n, m, i);
    TimesIs(k, n);
    TimesIs(r, n);
    if k < r {
      MulStep(k, r, n);
    } else if r < k {
      MulStep(r, k, n);
    }
  }

  lemma MulStep(a: int, b: int, d: nat)
    requires a < b
    ensures a * d + d <= b * d
  {
    var e: nat := b - a - 1;
    assert b * d == (a + 1 + e) * d == a * d + d + e * d;
    assert 0 <= e * d;
  }

  lemma DivisionIs(q: nat, d: nat, r: nat)
    requires r < d
    ensures (q * d + r) / d == q
  {
    var p := (q * d + r) / d;
    assert 0 <= (q * d + r) - p * d < d;
    if p < q {
      MulStep(p, q, d);
    } else if p > q {
      MulStep(q, p, d);
    }
  }

  lemma RoundedIsNear(n: nat, m: nat, i: nat)
    requires 0 < n
    ensures Near(n, m, i, Rounded(n, m, i))
  {
    var t, d := 2 * Times(i, m) + n, 2 * n;
    var k := Quotient(t, d);
    QuotientTimes(t, d);
    TimesIs(k, d);
    TimesIs(k, n);
    assert k * d == 2 * (k * n);
  }

  /** One turn of the loop: the decision variable says whether the next step is nearer one line up. */
  lemma Turn(n: nat, m: nat, i: nat, k: nat, error: int)
    requires m <= n && 0 < n && Near(n, m, i, k)
    requires error == 2 * Times(i + 1, m) - 2 * Times(k, n) - n
    ensures error >= 0 ==> Near(n, m, i + 1, k + 1)
                           && error - 2 * n + 2 * m == 2 * Times(i + 2, m) - 2 * Times(k + 1, n) - n
    ensures error < 0 ==> Near(n, m, i + 1, k) && error + 2 * m == 2 * Times(i + 2, m) - 2 * Times(k, n) - n
  {
    assert Times(i + 2, m) == Times(i + 1, m) + m && Times(i + 1, m) == Times(i, m) + m;
  }

  lemma {:induction false} TimesGap(a: nat, b: nat, n: nat)
    requires a < b
    ensures Times(a, n) + n <= Times(b, n)
  {
    if a + 1 < b {
      TimesGap(a, b - 1, n);
    }
  }

  lemma TimesSwap(a: nat, b: nat)
    ensures Times(a, b) == Times(b, a)
  {
    TimesIs(a, b);
    TimesIs(b, a);
    assert a * b == b * a;
  }

  lemma NearBounds(n: nat, m: nat, i: nat, k: nat)
    requires m <= n && 0 < n && i <= n && Near(n, m, i, k)
    ensures k <= m && (i == n ==> k == m) && (i == 0 ==> k == 0)
  {
    TimesSwap(n, m);
    if i < n {
      TimesGap(i, n, m);
    }
    if k > m {
      TimesGap(m, k, n);
    } else if k < m {
      TimesGap(k, m, n);
    }
    if k > 0 {
      TimesGap(0, k, n);
    }
  }

  /** Every point is within half a pixel of the true line on the minor axis. */
  lemma LineNear(x0: int, y0: int, x1: int, y1: int, i: nat)
    requires i <= Steps(x0, y0, x1, y1)
    ensures var dx, dy, p := Abs(x1 - x0), Abs(y1 - y0), LineAt(x0, y0, x1, y1, i);
            if dx > dy then p.x == Moved(x0, x1 - x0, i) && 2 * Abs((p.y - y0) * dx - Sign(y1 - y0) * (i * dy)) <= dx
            else p.y == Moved(y0, y1 - y0, i) && 2 * Abs((p.x - x0) * dy - Sign(x1 - x0) * (i * dx)) <= dy
  {
    var dx, dy := Abs(x1 - x0), Abs(y1 - y0);
    if dx > dy {
      RoundedMeaning(dx, dy, i);
      SignedAbs(Sign(y1 - y0), Rounded(dx, dy, i), dx, i * dy);
    } else if dy > 0 {
      RoundedMeaning(dy, dx, i);
      SignedAbs(Sign(x1 - x0), Rounded(dy, dx, i), dy, i * dx);
    }
  }

  /** Consecutive points differ by one step along the major axis and by none or one along the other,
      always in the same directions. */
  lemma LineConnected(x0: int, y0: int, x1: int, y1: int, i: nat)
    requires i < Steps(x0, y0, x1, y1)
    ensures var dx, dy := Abs(x1 - x0), Abs(y1 - y0);
            var p, q := LineAt(x0, y0, x1, y1, i), LineAt(x0, y0, x1, y1, i + 1);
            && (q.x - p.x == Sign(x1 - x0) || (q.x == p.x && dx <= dy))
            && (q.y - p.y == Sign(y1 - y0) || (q.y == p.y && dx > dy))
  {
    var dx, dy := Abs(x1 - x0), Abs(y1 - y0);
    if dx > dy {
      RoundedSteps(dx, dy, i);
    } else {
      RoundedSteps(dy, dx, i);
    }
  }

  /** The line runs from (x0,y0) to (x1,y1) inside their bounding box. */
  lemma LineEnds(x0: int, y0: int, x1: int, y1: int, i: nat)
    requires i <= Steps(x0, y0, x1, y1)
    ensures var p := LineAt(x0, y0, x1, y1, i);
            && Between(x0, p.x, x1) && Between(y0, p.y, y1)
            && (i == 0 ==> p == Point(x0, y0)) && (i == Steps(x0, y0, x1, y1) ==> p == Point(x1, y1))
  {
    var dx, dy := Abs(x1 - x0), Abs(y1 - y0);
    if dx > dy {
      RoundedMeaning(dx, dy, i);
    } else if dy > 0 {
      RoundedMeaning(dy, dx, i);
    }
  }

  predicate Between(a: int, x: int, b: int) {
    a <= x <= b || b <= x <= a
  }

  lemma RoundedMeaning(n: nat, m: nat, i: nat)
    requires m <= n && 0 < n && i <= n
    ensures var k := Rounded(n, m, i);
            && 2 * Abs(k * n - i * m) <= n
            && k <= m && (i == n ==> k == m) && (i == 0 ==> k == 0)
  {
    RoundedIsNear(n, m, i);
    NearBounds(n, m, i, Rounded(n, m, i));
    TimesIs(i, m);
    TimesIs(Rounded(n, m, i), n);
  }

  lemma RoundedSteps(n: nat, m: nat, i: nat)
    requires m <= n && 0 < n
    ensures Rounded(n, m, i + 1) == Rounded(n, m, i) || Rounded(n, m, i + 1) == Rounded(n, m, i) + 1
  {
    var k := Rounded(n, m, i);
    RoundedIsNear(n, m, i);
    var error: int := 2 * Times(i + 1, m) - 2 * Times(k, n) - n;
    Turn(n, m, i, k, error);
    NearIsRounded(n, m, i + 1, if error >= 0 then k + 1 else k);
  }

  lemma SignedAbs(s: int, k: int, n: int, v: int)
    requires s == 1 || s == -1
    ensures Abs((s * k) * n - s * v) == Abs(k * n - v)
  {
    if s == -1 {
      assert (-k) * n == -(k * n);
    }
  }

  /** A coordinate that has just been moved by one, kept in 16 bits. */
  function Wrapped(c: int): int {
    if c < 0 then c + COORD_SPAN else if c >= COORD_SPAN then c - COORD_SPAN else c
  }

  lemma OnTheWay(n: nat, m: nat, i: nat, k: nat)
    requires m <= n && 0 < n && i <= n && Near(n, m, i, k)
    ensures k == Rounded(n, m, i) && k <= m
  {
    NearIsRounded(n, m, i, k);
    NearBounds(n, m, i, k);
  }

  ghost predicate IsCoord(c: int) {
    0 <= c < COORD_SPAN
  }

  /** Gui_DrawLine, with Gui_DrawPoint appending to `points`. */
  method DrawLine(x0: int, y0: int, x1: int, y1: int) returns (points: seq<Point>)
    requires IsCoord(x0) && IsCoord(y0) && IsCoord(x1) && IsCoord(y1)
    ensures |points| == Steps(x0, y0, x1, y1) + 1
    ensures forall i :: 0 <= i < |points| ==> points[i] == LineAt(x0, y0, x1, y1, i)
  {
    var dx, dy, xInc, yInc := x1 - x0, y1 - y0, 1, 1;
    if dx < 0 {
      xInc, dx := -1, -dx;
    }
    if dy < 0 {
      yInc, dy := -1, -dy;
    }
    if dx > dy {
      points := DrawFlat(x0, y0, dx, dy, xInc, yInc, x1, y1);
    } else {
      points := DrawSteep(x0, y0, dx, dy, xInc, yInc, x1, y1);
    }
  }

  /** The points so far are the first of the line. */
  ghost predicate Plotted(points: seq<Point>, u0: int, v0: int, u1: int, v1: int, steep: bool) {
    forall i :: 0 <= i < |points| ==> points[i] == Along(u0, v0, u1, v1, steep, i)
  }

  lemma PlotMore(points: seq<Point>, p: Point, u0: int, v0: int, u1: int, v1: int, steep: bool)
    requires Plotted(points, u0, v0, u1, v1, steep) && p == Along(u0, v0, u1, v1, steep, |points|)
    ensures Plotted(points + [p], u0, v0, u1, v1, steep)
  {}

  /** A coordinate on its way from `c0` to `c1` after `i` steps, as 16 bits hold it. */
  function Coord(c0: int, c1: int, i: int): int {
    Wrapped(Moved(c0, c1 - c0, i))
  }

  lemma CoordStep(c0: int, c1: int, i: nat)
    requires IsCoord(c0) && IsCoord(c1) && i <= Abs(c1 - c0)
    ensures Wrapped(Coord(c0, c1, i) + Sign(c1 - c0)) == Coord(c0, c1, i + 1)
  {}

  /** What both loops keep of the minor steps and the decision variable; when both ends are the same
      point the loop plots once and stops. */
  ghost predicate SoFar(n: nat, m: nat, index: nat, k: nat, error: int) {
    && (index == 0 ==> k == 0)
    && (n > 0 ==> Near(n, m, index, k) && error == 2 * Times(index + 1, m) - 2 * Times(k, n) - n)
  }

  /** What both loops keep, `u` being the major coordinate. */
  ghost predicate Loop(u0: int, v0: int, u1: int, v1: int, steep: bool,
                       points: seq<Point>, u: int, v: int, k: nat, error: int) {
    && u == Coord(u0, u1, |points|) && v == Coord(v0, v1, k)
    && SoFar(Abs(u1 - u0), Abs(v1 - v0), |points|, k, error)
    && Plotted(points, u0, v0, u1, v1, steep)
  }

  lemma LoopStarts(u0: int, v0: int, u1: int, v1: int, steep: bool)
    requires IsCoord(u0) && IsCoord(v0)
    ensures Loop(u0, v0, u1, v1, steep, [], u0, v0, 0, 2 * Abs(v1 - v0) - Abs(u1 - u0))
  {
    assert Times(1, Abs(v1 - v0)) == Times(0, Abs(v1 - v0)) + Abs(v1 - v0);
  }

  /** One turn plots the next point. */
  lemma LoopPlots(u0: int, v0: int, u1: int, v1: int, steep: bool, points: seq<Point>, k: nat, error: int)
    requires IsCoord(u0) && IsCoord(v0) && IsCoord(u1) && IsCoord(v1) && Abs(v1 - v0) <= Abs(u1 - u0)
    requires |points| <= Abs(u1 - u0) && SoFar(Abs(u1 - u0), Abs(v1 - v0), |points|, k, error)
    requires Plotted(points, u0, v0, u1, v1, steep)
    ensures var n, m, i := Abs(u1 - u0), Abs(v1 - v0), |points|;
            && k <= m && Plotted(points + [PointOf(Coord(u0, u1, i), Coord(v0, v1, k), steep)], u0, v0, u1, v1, steep)
            && (error >= 0 ==> SoFar(n, m, i + 1, k + 1, error - 2 * n + 2 * m))
            && (error < 0 ==> SoFar(n, m, i + 1, k, error + 2 * m))
  {
    if u1 != u0 {
      OnTheWay(Abs(u1 - u0), Abs(v1 - v0), |points|, k);
      Turn(Abs(u1 - u0), Abs(v1 - v0), |points|, k, error);
    }
    PlotMore(points, PointOf(Coord(u0, u1, |points|), Coord(v0, v1, k), steep), u0, v0, u1, v1, steep);
  }

  lemma LoopNext(u0: int, v0: int, u1: int, v1: int, steep: bool,
                 points: seq<Point>, u: int, v: int, k: nat, error: int)
    requires IsCoord(u0) && IsCoord(v0) && IsCoord(u1) && IsCoord(v1) && Abs(v1 - v0) <= Abs(u1 - u0)
    requires Loop(u0, v0, u1, v1, steep, points, u, v, k, error) && |points| <= Abs(u1 - u0)
    ensures var n, m, next, more := Abs(u1 - u0), Abs(v1 - v0), Wrapped(u + Sign(u1 - u0)), points + [PointOf(u, v, steep)];
            if error >= 0
            then Loop(u0, v0, u1, v1, steep, more, next, Wrapped(v + Sign(v1 - v0)), k + 1, error - 2 * n + 2 * m)
            else Loop(u0, v0, u1, v1, steep, more, next, v, k, error + 2 * m)
  {
    LoopPlots(u0, v0, u1, v1, steep, points, k, error);
    CoordStep(u0, u1, |points|);
    CoordStep(v0, v1, k);
  }

  /** The first branch of Gui_DrawLine: one point for each x. */
  method DrawFlat(x0: int, y0: int, dx: nat, dy: nat, xInc: int, yInc: int, ghost x1: int, ghost y1: int)
    returns (points: seq<Point>)
    requires IsCoord(x0) && IsCoord(y0) && IsCoord(x1) && IsCoord(y1)
    requires dx == Abs(x1 - x0) && dy == Abs(y1 - y0) && xInc == Sign(x1 - x0) && yInc == Sign(y1 - y0) && dx > dy
    ensures |points| == dx + 1 && Plotted(points, x0, y0, x1, y1, false)
  {
    hide SoFar;
    points := [];
    var x, y, error, index := x0, y0, 2 * dy - dx, 0;
    ghost var k: nat := 0;
    LoopStarts(x0, y0, x1, y1, false);
    while index <= dx
      invariant |points| == index <= dx + 1
      invariant Loop(x0, y0, x1, y1, false, points, x, y, k, error)
    {
      LoopNext(x0, y0, x1, y1, false, points, x, y, k, error);
      points := points + [Point(x, y)];
      if error >= 0 {
        error := error - 2 * dx;
        y := Wrapped(y + yInc);
        k := k + 1;
      }
      error := error + 2 * dy;
      x := Wrapped(x + xInc);
      index := index + 1;
    }
  }

  /** The second branch of Gui_DrawLine: one point for each y. */
  method DrawSteep(x0: int, y0: int, dx: nat, dy: nat, xInc: int, yInc: int, ghost x1: int, ghost y1: int)
    returns (points: seq<Point>)
    requires IsCoord(x0) && IsCoord(y0) && IsCoord(x1) && IsCoord(y1)
    requires dx == Abs(x1 - x0) && dy == Abs(y1 - y0) && xInc == Sign(x1 - x0) && yInc == Sign(y1 - y0) && dx <= dy
    ensures |points| == dy + 1 && Plotted(points, y0, x0, y1, x1, true)
  {
    hide SoFar;
    points := [];
    var x, y, error, index := x0, y0, 2 * dx - dy, 0;
    ghost var k: nat := 0;
    LoopStarts(y0, x0, y1, x1, true);
    while index <= dy
      invariant |points| == index <= dy + 1
      invariant Loop(y0, x0, y1, x1, true, points, y, x, k, error)
    {
      LoopNext(y0, x0, y1, x1, true, points, y, x, k, error);
      points := points + [Point(x, y)];
      if error >= 0 {
        error := error - 2 * dy;
        x := Wrapped(x + xInc);
        k := k + 1;
      }
      error := error + 2 * dx;
      y := Wrapped(y + yInc);
      index := index + 1;
    }
  }

  // ---------- Circles ----------

  /** `b` is the square root of r*r - a*a rounded to the nearest integer, on the octant a <= b. */
  ghost predicate OnOctant(r: nat, a: nat, b: nat) {
    a <= b && Square(b) - b + 1 <= Square(r) - Square(a) <= Square(b) + b
  }

  /** A displacement from the centre on the circle of radius `r`: an octant point up to the eight
      symmetries. */
  ghost predicate OnCircle(r: nat, dx: int, dy: int) {
    OnOctant(r, Abs(dx), Abs(dy)) || OnOctant(r, Abs(dy), Abs(dx))
  }

  lemma OddSquare(b: int)
    ensures (2 * b - 1) * (2 * b - 1) == 4 * (b * b) - 4 * b + 1
    ensures (2 * b + 1) * (2 * b + 1) == 4 * (b * b) + 4 * b + 1
  {}

  /** The nearest integer, said without roots. */
  lemma OctantIsNearest(r: nat, a: nat, b: nat)
    requires a <= b
    ensures OnOctant(r, a, b) <==> (2 * b - 1) * (2 * b - 1) < 4 * (r * r - a * a) < (2 * b + 1) * (2 * b + 1)
  {
    SquareIs(a);
    SquareIs(b);
    SquareIs(r);
    OddSquare(b);
  }

  lemma {:induction false} SquareGap(a: nat, b: nat)
    requires a < b
    ensures Square(a) + a + 1 <= Square(b) - b + 1 && Square(a) < Square(b)
  {
    if a + 1 < b {
      SquareGap(a, b - 1);
    }
  }

  /** One octant point for each a. */
  lemma OctantUnique(r: nat, a: nat, b: nat, d: nat)
    requires OnOctant(r, a, b) && OnOctant(r, a, d)
    ensures b == d
  {
    if b < d {
      SquareGap(b, d);
    } else if d < b {
      SquareGap(d, b);
    }
  }

  /** Past the diagonal there are no octant points. */
  lemma OctantEnds(r: nat, a: nat, b: nat, x: nat, y: nat)
    requires b < a && Square(r) - Square(a) <= Square(b) + b && OnOctant(r, x, y)
    ensures x < a
  {
    if a <= x {
      SquareGap(b, y);
      if a < x {
        SquareGap(a, x);
      }
    }
  }

  /** While the loop runs the decision variable is 2(a+1)^2 + b^2 + (b-1)^2 - 2r^2, and (a,b) is an
      octant point unless the loop has just passed the diagonal. */
  ghost predicate CircleSoFar(r: nat, a: nat, b: nat, c: int) {
    && c == 2 * Square(a + 1) + 2 * Square(b) - 2 * b + 1 - 2 * Square(r)
    && a <= b + 1 && b <= r
    && (a <= b ==> OnOctant(r, a, b))
    && Square(r) - Square(a) <= Square(b) + b
  }

  lemma CircleStarts(r: nat)
    requires 1 <= r
    ensures CircleSoFar(r, 0, r, 3 - 2 * r)
  {
    assert Square(1) == 1;
  }

  lemma CircleTurn(r: nat, a: nat, b: nat, c: int)
    requires CircleSoFar(r, a, b, c) && a < b
    ensures c < 0 ==> CircleSoFar(r, a + 1, b, c + 4 * a + 6)
    ensures c >= 0 ==> CircleSoFar(r, a + 1, b - 1, c + 4 * (a - b) + 10)
  {
    assert Square(a + 2) == Square(a + 1) + 2 * a + 3 && Square(a + 1) == Square(a) + 2 * a + 1;
    assert Square(b) == Square(b - 1) + 2 * b - 1;
  }

  /** The decision variable and its intermediate values fit in an int. */
  lemma CircleFits(r: nat, a: nat, b: nat, c: int)
    requires CircleSoFar(r, a, b, c) && a <= b && r < COORD_SPAN
    ensures 4 * a - 4 * b + 3 <= c <= 4 * a + 1 && -INT_MAX <= c + 4 * (a - b) + 10 <= c + 4 * a + 10 <= INT_MAX
  {
    assert Square(a + 1) == Square(a) + 2 * a + 1;
  }

  datatype Offset = Offset(dx: int, dy: int)

  /** What Gui_DrawPoint gets for a point at an offset from the centre. */
  function Drawn(x: int, y: int, o: Offset): Point {
    Point((x + o.dx) % DRAWN_SPAN, (y + o.dy) % DRAWN_SPAN)
  }

  /** The offsets of one turn of the loop, in the order in which they are drawn. */
  function Eight(a: int, b: int): seq<Offset> {
    [Offset(a, b), Offset(-a, b), Offset(a, -b), Offset(-a, -b), Offset(b, a), Offset(-b, a), Offset(b, -a), Offset(-b, -a)]
  }

  /** The offsets drawn when the loop ends on the diagonal: the first is drawn twice. */
  function EightOnDiagonal(a: int, b: int): seq<Offset> {
    [Offset(a, b), Offset(a, b), Offset(a, -b), Offset(-a, -b), Offset(b, a), Offset(-b, a), Offset(b, -a), Offset(-b, -a)]
  }

  lemma EightAre(a: nat, b: nat, o: Offset)
    requires a <= b
    ensures o in Eight(a, b) <==> (Abs(o.dx) == a && Abs(o.dy) == b) || (Abs(o.dx) == b && Abs(o.dy) == a)
    ensures a == b ==> (o in EightOnDiagonal(a, b) <==> o in Eight(a, b))
  {}

  /** The points drawn for offsets. */
  ghost predicate DrawnAll(x: int, y: int, points: seq<Point>, offsets: seq<Offset>) {
    |points| == |offsets| && forall i :: 0 <= i < |points| ==> points[i] == Drawn(x, y, offsets[i])
  }

  function Drawings(x: int, y: int, offsets: seq<Offset>): seq<Point> {
    seq(|offsets|, i requires 0 <= i < |offsets| => Drawn(x, y, offsets[i]))
  }

  lemma DrawMore(x: int, y: int, points: seq<Point>, offsets: seq<Offset>, more: seq<Offset>)
    requires DrawnAll(x, y, points, offsets)
    ensures DrawnAll(x, y, points + Drawings(x, y, more), offsets + more)
  {}

  /** What the loop has drawn and computed before the turn for `a`. */
  ghost predicate ArcSoFar(r: nat, a: nat, b: nat, c: int, offsets: seq<Offset>) {
    if r == 0 then a == b == 0 && offsets == [] else CircleSoFar(r, a, b, c) && DrawnBelow(r, offsets, a)
  }

  lemma ArcStarts(r: nat)
    ensures ArcSoFar(r, 0, r, 3 - 2 * r, [])
  {
    if r >= 1 {
      CircleStarts(r);
    }
  }

  lemma ArcTurn(r: nat, a: nat, b: nat, c: int, offsets: seq<Offset>)
    requires ArcSoFar(r, a, b, c, offsets) && a < b && r < COORD_SPAN
    ensures a + 1 <= b <= r
    ensures c < 0 ==> ArcSoFar(r, a + 1, b, c + 4 * a + 6, offsets + Eight(a, b))
    ensures c >= 0 ==> ArcSoFar(r, a + 1, b - 1, c + 4 * (a - b) + 10, offsets + Eight(a, b))
    ensures -INT_MAX <= c + 4 * (a - b) + 10 <= c + 4 * a + 10 <= INT_MAX
  {
    CircleFits(r, a, b, c);
    DrawEight(r, offsets, a, b, Eight(a, b));
    CircleTurn(r, a, b, c);
  }

  /** The offsets on the circle, or the centre if the radius is 0. */
  ghost predicate WholeCircle(r: nat, offsets: seq<Offset>) {
    if r == 0 then forall o :: o in offsets <==> o == Offset(0, 0)
    else forall o :: o in offsets <==> OnCircle(r, o.dx, o.dy)
  }

  lemma ArcEnds(r: nat, a: nat, b: nat, c: int, offsets: seq<Offset>)
    requires ArcSoFar(r, a, b, c, offsets) && a >= b
    ensures a == b ==> WholeCircle(r, offsets + EightOnDiagonal(a, b))
    ensures a != b ==> WholeCircle(r, offsets)
  {
    if r >= 1 {
      if a == b {
        DrawEight(r, offsets, a, b, EightOnDiagonal(a, b));
        PastDiagonal(r, a);
        AllDrawn(r, offsets + EightOnDiagonal(a, b), a + 1, b);
      } else {
        AllDrawn(r, offsets, a, b);
      }
    }
  }

  /** The octant points drawn so far are those with a smaller a. */
  ghost predicate DrawnBelow(r: nat, offsets: seq<Offset>, a: int) {
    forall o :: o in offsets <==> DrawnBy(r, a, o)
  }

  ghost predicate DrawnBy(r: nat, a: int, o: Offset) {
    || (OnOctant(r, Abs(o.dx), Abs(o.dy)) && Abs(o.dx) < a)
    || (OnOctant(r, Abs(o.dy), Abs(o.dx)) && Abs(o.dy) < a)
  }

  lemma DrawEight(r: nat, offsets: seq<Offset>, a: nat, b: nat, more: seq<Offset>)
    requires OnOctant(r, a, b) && DrawnBelow(r, offsets, a)
    requires more == Eight(a, b) || (a == b && more == EightOnDiagonal(a, b))
    ensures DrawnBelow(r, offsets + more, a + 1)
  {
    forall o ensures o in offsets + more <==> DrawnBy(r, a + 1, o) {
      EightAre(a, b, o);
      if OnOctant(r, Abs(o.dx), Abs(o.dy)) && Abs(o.dx) == a {
        OctantUnique(r, a, b, Abs(o.dy));
      }
      if OnOctant(r, Abs(o.dy), Abs(o.dx)) && Abs(o.dy) == a {
        OctantUnique(r, a, b, Abs(o.dx));
      }
    }
  }

  lemma AllDrawn(r: nat, offsets: seq<Offset>, a: nat, b: nat)
    requires DrawnBelow(r, offsets, a) && b < a && Square(r) - Square(a) <= Square(b) + b
    ensures forall o :: o in offsets <==> OnCircle(r, o.dx, o.dy)
  {
    forall o ensures o in offsets <==> OnCircle(r, o.dx, o.dy) {
      if OnOctant(r, Abs(o.dx), Abs(o.dy)) {
        OctantEnds(r, a, b, Abs(o.dx), Abs(o.dy));
      }
      if OnOctant(r, Abs(o.dy), Abs(o.dx)) {
        OctantEnds(r, a, b, Abs(o.dy), Abs(o.dx));
      }
    }
  }

  lemma PastDiagonal(r: nat, a: nat)
    requires OnOctant(r, a, a)
    ensures Square(r) - Square(a + 1) <= Square(a) + a
  {}

  /** What the loop keeps. */
  ghost predicate Arc(x: int, y: int, r: nat, points: seq<Point>, offsets: seq<Offset>, a: nat, b: nat, c: int) {
    ArcSoFar(r, a, b, c, offsets) && DrawnAll(x, y, points, offsets)
  }

  lemma ArcNext(x: int, y: int, r: nat, points: seq<Point>, offsets: seq<Offset>, a: nat, b: nat, c: int)
    requires Arc(x, y, r, points, offsets, a, b, c) && a < b && r < COORD_SPAN
    ensures a + 1 <= b <= r && -INT_MAX <= c + 4 * (a - b) + 10 <= c + 4 * a + 10 <= INT_MAX
    ensures var all, more := points + Drawings(x, y, Eight(a, b)), offsets + Eight(a, b);
            if c < 0 then Arc(x, y, r, all, more, a + 1, b, c + 4 * a + 6)
            else Arc(x, y, r, all, more, a + 1, b - 1, c + 4 * (a - b) + 10)
  {
    DrawMore(x, y, points, offsets, Eight(a, b));
    ArcTurn(r, a, b, c, offsets);
  }

  /** The points are those at the offsets of the circle, each of them at least once. */
  ghost predicate Picture(x: int, y: int, r: nat, points: seq<Point>) {
    exists offsets :: DrawnAll(x, y, points, offsets) && WholeCircle(r, offsets)
  }

  ghost predicate At(x: int, y: int, o: Offset, p: Point) {
    p.x == (x + o.dx) % DRAWN_SPAN && p.y == (y + o.dy) % DRAWN_SPAN
  }

  lemma DrawnWhere(x: int, y: int, points: seq<Point>, offsets: seq<Offset>, p: Point)
    requires DrawnAll(x, y, points, offsets)
    ensures p in points <==> exists o :: o in offsets && At(x, y, o, p)
  {
    if p in points {
      var i :| 0 <= i < |points| && points[i] == p;
      assert offsets[i] in offsets && At(x, y, offsets[i], p);
    }
    if o :| o in offsets && At(x, y, o, p) {
      var i :| 0 <= i < |offsets| && offsets[i] == o;
      assert points[i] == p;
    }
  }

  /** Where the points of a picture lie: at the displacements of the circle from its centre, in 32 bits. */
  lemma PictureMeaning(x: int, y: int, r: nat, points: seq<Point>, p: Point)
    requires Picture(x, y, r, points)
    ensures r > 0 ==> (p in points <==> exists o: Offset :: OnCircle(r, o.dx, o.dy) && At(x, y, o, p))
    ensures r == 0 ==> (p in points <==> At(x, y, Offset(0, 0), p))
  {
    var offsets: seq<Offset> :| DrawnAll(x, y, points, offsets) && WholeCircle(r, offsets);
    DrawnWhere(x, y, points, offsets, p);
    hide OnCircle, DrawnAll, At;
  }

  /** Gui_Circle: the points drawn are exactly those of the circle, unless the radius is 0. */
  method DrawCircle(x: int, y: int, r: nat) returns (points: seq<Point>)
    requires IsCoord(x) && IsCoord(y) && IsCoord(r)
    ensures Picture(x, y, r, points)
  {
    points := [];
    ghost var offsets: seq<Offset> := [];
    var a: nat, b: nat, c := 0, r, 3 - 2 * r;
    ArcStarts(r);
    while a < b
      invariant Arc(x, y, r, points, offsets, a, b, c)
    {
      ArcNext(x, y, r, points, offsets, a, b, c);
      points, offsets := points + Drawings(x, y, Eight(a, b)), offsets + Eight(a, b);
      if c < 0 {
        c := c + 4 * a + 6;
      } else {
        c := c + 4 * (a - b) + 10;
        b := b - 1;
      }
      a := a + 1;
    }
    ArcEnds(r, a, b, c, offsets);
    if a == b {
      DrawMore(x, y, points, offsets, EightOnDiagonal(a, b));
      points, offsets := points + Drawings(x, y, EightOnDiagonal(a, b)), offsets + EightOnDiagonal(a, b);
    }
  }
}
