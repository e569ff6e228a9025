/** Integer rasterisation used to carve passages: the Bresenham-style walk of `GetLine`
    and the disc stamped by `DrawCircle`. */
module Raster {
  import opened Grids

  /** `Mathf.Abs` on integers. */
  function Abs(n: int): (r: nat)
    ensures r == n || r == -n
  {
    if n < 0 then -n else n
  }

  /** `Math.Sign`: -1, 0 or 1. */
  function Sign(n: int): (r: int)
    ensures r * Abs(n) == n
    ensures -1 <= r <= 1 && (r == 0 <==> n == 0)
  {
    if n < 0 then -1 else if n > 0 then 1 else 0
  }

  /** The quantities `GetLine` fixes before its loop: whether the axes are swapped (the line
      is steeper than 45 degrees), the unit step along the major and the minor axis, and the
      distances along both. */
  datatype LineShape = LineShape(inverted: bool, step: int, gradientStep: int, longest: nat, shortest: nat)

  function Shape(from: Coord, to: Coord): (s: LineShape)
    ensures s.shortest <= s.longest
    ensures s.longest == if Abs(to.tileX - from.tileX) < Abs(to.tileY - from.tileY)
                         then Abs(to.tileY - from.tileY) else Abs(to.tileX - from.tileX)
    ensures s.inverted ==> s.step * s.longest == to.tileY - from.tileY && s.gradientStep * s.shortest == to.tileX - from.tileX
    ensures !s.inverted ==> s.step * s.longest == to.tileX - from.tileX && s.gradientStep * s.shortest == to.tileY - from.tileY
  {
    var dx := to.tileX - from.tileX;
    var dy := to.tileY - from.tileY;
    if Abs(dx) < Abs(dy) then LineShape(true, Sign(dy), Sign(dx), Abs(dy), Abs(dx))
    else LineShape(false, Sign(dx), Sign(dy), Abs(dx), Abs(dy))
  }

  /** How many minor-axis steps the walk has taken after `i` major-axis steps: the
      accumulator starts at `longest / 2` and gains `shortest` per step, and every time it
      reaches `longest` the walk moves along the minor axis. */
  function MinorSteps(s: LineShape, i: nat): nat {
    if s.longest == 0 then 0 else (s.longest / 2 + i * s.shortest) / s.longest
  }

  /** The point `i` steps along the major axis and `k` along the minor axis from `from`. */
  function Walk(from: Coord, s: LineShape, i: int, k: int): Coord {
    if s.inverted then Coord(from.tileX + s.gradientStep * k, from.tileY + s.step * i)
    else Coord(from.tileX + s.step * i, from.tileY + s.gradientStep * k)
  }

  /** One more major step adds `step` on the major axis; one more minor step adds
      `gradientStep` on the minor axis. */
  lemma WalkSteps(from: Coord, s: LineShape, i: int, k: int)
    ensures var p, q := Walk(from, s, i, k), Walk(from, s, i + 1, k);
      if s.inverted then q == Coord(p.tileX, p.tileY + s.step) else q == Coord(p.tileX + s.step, p.tileY)
    ensures var p, q := Walk(from, s, i, k), Walk(from, s, i, k + 1);
      if s.inverted then q == Coord(p.tileX + s.gradientStep, p.tileY) else q == Coord(p.tileX, p.tileY + s.gradientStep)
  {
    assert s.step * (i + 1) == s.step * i + s.step;
    assert s.gradientStep * (k + 1) == s.gradientStep * k + s.gradientStep;
  }

  /** The `i`-th point of the walk from `from` towards `to`, in closed form. */
  function LinePoint(from: Coord, to: Coord, i: nat): Coord {
    var s := Shape(from, to);
    Walk(from, s, i, MinorSteps(s, i))
  }

  /** Multiplying by a positive number keeps the order. */
  lemma MulMonotone(a: int, b: int, d: int)
    requires a <= b && 0 < d
    ensures a * d <= b * d
  {
    assert b * d - a * d == (b - a) * d;
  }

  /** Integer division is determined by a quotient and a remainder in range. */
  lemma DivisionUnique(n: int, d: int, q: int, r: int)
    requires 0 < d && 0 <= r < d && n == q * d + r
    ensures n / d == q
  {
    var q0, r0 := n / d, n % d;
    assert n == q0 * d + r0;
    if q0 < q {
      MulMonotone(q0 + 1, q, d);
      assert false;
    } else if q < q0 {
      MulMonotone(q + 1, q0, d);
      assert false;
    }
  }

  /** Adding at most one divisor's worth moves the quotient by at most one. */
  lemma QuotientStep(n: int, s: int, d: int)
    requires 0 <= n && 0 <= s <= d && 0 < d
    ensures (n + s) / d == n / d || (n + s) / d == n / d + 1
  {
    var q, r := n / d, n % d;
    assert n == q * d + r;
    if r + s < d {
      DivisionUnique(n + s, d, q, r + s);
    } else {
      assert n + s == (q + 1) * d + (r + s - d);
      DivisionUnique(n + s, d, q + 1, r + s - d);
    }
  }

  /** With no step taken the walk is at `from`. */
  lemma LineStartsAtFrom(from: Coord, to: Coord)
    ensures LinePoint(from, to, 0) == from
  {
    var s := Shape(from, to);
    if s.longest > 0 {
      DivisionUnique(s.longest / 2, s.longest, 0, s.longest / 2);
    }
  }

  /** After `longest` steps the walk is exactly at `to`: the major axis has moved by the whole
      major distance and the minor axis has been advanced exactly `shortest` times. */
  lemma LineReachesTo(from: Coord, to: Coord)
    ensures LinePoint(from, to, Shape(from, to).longest) == to
  {
    var s := Shape(from, to);
    if s.longest > 0 {
      DivisionUnique(s.longest / 2 + s.longest * s.shortest, s.longest, s.shortest, s.longest / 2);
    } else {
      assert s.shortest == 0;
    }
  }

  /** One major step takes zero or one minor step. */
  lemma MinorStepsStep(s: LineShape, i: nat)
    requires s.shortest <= s.longest && 0 < s.longest
    ensures MinorSteps(s, i + 1) == MinorSteps(s, i) || MinorSteps(s, i + 1) == MinorSteps(s, i) + 1
  {
    var n := s.longest / 2 + i * s.shortest;
    assert s.longest / 2 + (i + 1) * s.shortest == n + s.shortest;
    QuotientStep(n, s.shortest, s.longest);
  }

  /** Consecutive points differ by exactly `step` along the major axis and by 0 or
      `gradientStep` along the minor axis. */
  lemma LineStep(from: Coord, to: Coord, i: nat)
    requires i < Shape(from, to).longest
    ensures var s := Shape(from, to);
            var p, q := LinePoint(from, to, i), LinePoint(from, to, i + 1);
            if s.inverted then q.tileY - p.tileY == s.step && (q.tileX - p.tileX == 0 || q.tileX - p.tileX == s.gradientStep)
            else q.tileX - p.tileX == s.step && (q.tileY - p.tileY == 0 || q.tileY - p.tileY == s.gradientStep)
  {
    var s := Shape(from, to);
    MinorStepsStep(s, i);
    var k, k' := MinorSteps(s, i), MinorSteps(s, i + 1);
    assert LinePoint(from, to, i) == Walk(from, s, i, k);
    assert LinePoint(from, to, i + 1) == Walk(from, s, i + 1, k');
    WalkSteps(from, s, i, k);
    WalkSteps(from, s, i + 1, k);
  }

  /** One step of `GetLine`'s accumulator keeps `acc + k * longest == longest / 2 + i * shortest`,
      whether or not it wraps. */
  lemma AccumulatorStep(longest: int, shortest: int, i: int, k: int, acc: int)
    requires acc + k * longest == longest / 2 + i * shortest
    ensures (acc + shortest) + k * longest == longest / 2 + (i + 1) * shortest
    ensures (acc + shortest - longest) + (k + 1) * longest == longest / 2 + (i + 1) * shortest
  {
    assert (i + 1) * shortest == i * shortest + shortest;
    assert (k + 1) * longest == k * longest + longest;
  }

  /** The accumulator identity `acc + k * longest == longest / 2 + i * shortest`, with
      `acc` in `[0, longest)`, pins `k` to the minor steps taken after `i` major steps. */
  lemma LineAdvance(s: LineShape, i: nat, k: int, acc: int)
    requires 0 <= acc < s.longest && acc + k * s.longest == s.longest / 2 + i * s.shortest
    ensures k == MinorSteps(s, i)
  {
    DivisionUnique(s.longest / 2 + i * s.shortest, s.longest, k, acc);
  }

  /** Tile `(x, y)` lies in the disc of radius `r` around `c` that `DrawCircle` clears: its
      offsets are within the `-r..r` loops and `x'^2 + y'^2 <= r^2`. */
  predicate InDisc(c: Coord, r: int, x: int, y: int) {
    var dx, dy := x - c.tileX, y - c.tileY;
    -r <= dx <= r && -r <= dy <= r && dx * dx + dy * dy <= r * r
  }

  /** For a non-negative radius the loop bounds cut nothing off: the disc is exactly the set
      of tiles within Euclidean distance `r`. */
  lemma DiscIsEuclidean(c: Coord, r: int, x: int, y: int)
    requires r >= 0
    ensures InDisc(c, r, x, y) <==> (x - c.tileX) * (x - c.tileX) + (y - c.tileY) * (y - c.tileY) <= r * r
  {
    var dx, dy := x - c.tileX, y - c.tileY;
    if dx * dx + dy * dy <= r * r {
      SquareBound(dx, r, dy * dy);
      SquareBound(dy, r, dx * dx);
    }
  }

  /** `a^2 + rest <= r^2` with `rest >= 0` bounds `|a|` by `r`. */
  lemma SquareBound(a: int, r: int, rest: int)
    requires r >= 0 && rest >= 0 && a * a + rest <= r * r
    ensures -r <= a <= r
  {
    var m := Abs(a);
    assert m * m == a * a;
    assert (r + 1) * (r + 1) == r * r + 2 * r + 1;
    if m > r {
      MulMonotone(r + 1, m, r + 1);
      MulMonotone(r + 1, m, m);
      assert false;
    }
  }

  /** A negative radius clears nothing. */
  lemma NegativeRadiusEmpty(c: Coord, r: int, x: int, y: int)
    requires r < 0
    ensures !InDisc(c, r, x, y)
  {
  }

  /** Tile `(x, y)` lies in a disc of radius `r` around some point of `line`. */
  ghost predicate NearLine(line: seq<Coord>, r: int, x: int, y: int) {
    exists i :: 0 <= i < |line| && InDisc(line[i], r, x, y)
  }

  /** Stamping one more point of the line adds its disc. */
  lemma NearLineExtend(line: seq<Coord>, i: int, r: int, x: int, y: int)
    requires 0 <= i < |line|
    ensures NearLine(line[..i + 1], r, x, y) <==> NearLine(line[..i], r, x, y) || InDisc(line[i], r, x, y)
  {
    var longer := line[..i + 1];
    if InDisc(line[i], r, x, y) {
      assert longer[i] == line[i];
    }
    if NearLine(line[..i], r, x, y) {
      var k :| 0 <= k < i && InDisc(line[..i][k], r, x, y);
      assert longer[k] == line[k];
    }
    if NearLine(longer, r, x, y) && !InDisc(line[i], r, x, y) {
      var k :| 0 <= k < i + 1 && InDisc(longer[k], r, x, y);
      assert k < i && line[..i][k] == line[k];
    }
  }

  /** Tile `(x, y)` lies in a disc of radius `r` around some point of the walk from `from`
      towards `to`. */
  ghost predicate Carved(from: Coord, to: Coord, r: int, x: int, y: int) {
    exists i :: 0 <= i < Shape(from, to).longest && InDisc(LinePoint(from, to, i), r, x, y)
  }

  /** The last point of a non-empty walk is at most one step from `to` along each axis. */
  lemma LastPointNextToTo(from: Coord, to: Coord)
    requires from != to
    ensures var p := LinePoint(from, to, Shape(from, to).longest - 1);
      -1 <= to.tileX - p.tileX <= 1 && -1 <= to.tileY - p.tileY <= 1
  {
    var n := Shape(from, to).longest;
    LineStep(from, to, n - 1);
    LineReachesTo(from, to);
  }

  /** A tile at most one step away along each axis lies in any disc of radius at least 2. */
  lemma NeighbourInDisc(c: Coord, r: int, x: int, y: int)
    requires r >= 2 && -1 <= x - c.tileX <= 1 && -1 <= y - c.tileY <= 1
    ensures InDisc(c, r, x, y)
  {
    var dx, dy := x - c.tileX, y - c.tileY;
    assert dx * dx <= 1 && dy * dy <= 1;
    MulMonotone(2, r, r);
    MulMonotone(2, r, 2);
  }

  /** With a radius of at least 2, a passage between two distinct tiles clears both ends:
      the walk starts at `from`, and its last point is one diagonal step from `to`. */
  lemma PassageClearsEnds(from: Coord, to: Coord, r: int)
    requires from != to && r >= 2
    ensures Carved(from, to, r, from.tileX, from.tileY)
    ensures Carved(from, to, r, to.tileX, to.tileY)
  {
    var n := Shape(from, to).longest;
    LineStartsAtFrom(from, to);
    NeighbourInDisc(LinePoint(from, to, 0), r, from.tileX, from.tileY);
    LastPointNextToTo(from, to);
    NeighbourInDisc(LinePoint(from, to, n - 1), r, to.tileX, to.tileY);
  }

  /** The discs around the points `GetLine` returns are the carved area of the walk. */
  lemma NearLineIsCarved(line: seq<Coord>, from: Coord, to: Coord, r: int, x: int, y: int)
    requires |line| == Shape(from, to).longest && forall i :: 0 <= i < |line| ==> line[i] == LinePoint(from, to, i)
    ensures NearLine(line, r, x, y) <==> Carved(from, to, r, x, y)
  {
    if Carved(from, to, r, x, y) {
      var i :| 0 <= i < Shape(from, to).longest && InDisc(LinePoint(from, to, i), r, x, y);
      assert InDisc(line[i], r, x, y);
    }
  }
}
