/** The cellular-automaton rule of `SmoothMap` and `GetSurroundingWallCount`, and the
    meaning of one in-place smoothing pass. */
module Smoothing {
  import opened Grids

  /** What neighbour `(nx, ny)` adds to the wall count of `(x, y)`: an off-map position
      counts as a wall, the centre tile itself counts nothing, any other tile adds its value. */
  ghost function NeighbourWall(g: Grid, w: int, h: int, x: int, y: int, nx: int, ny: int): int
    requires IsGrid(g, w, h)
  {
    if !InBounds(w, h, nx, ny) then 1
    else if nx == x && ny == y then 0
    else g[nx][ny]
  }

  /** The contributions of the first `k` rows (from `y - 1` down the column) of column `nx`. */
  ghost function ColumnWalls(g: Grid, w: int, h: int, x: int, y: int, nx: int, k: nat): int
    requires IsGrid(g, w, h) && k <= 3
  {
    if k == 0 then 0
    else ColumnWalls(g, w, h, x, y, nx, k - 1) + NeighbourWall(g, w, h, x, y, nx, y - 1 + k - 1)
  }

  /** The contributions of the first `k` columns (from `x - 1`) of the 3x3 block around `(x, y)`. */
  ghost function BlockWalls(g: Grid, w: int, h: int, x: int, y: int, k: nat): int
    requires IsGrid(g, w, h) && k <= 3
  {
    if k == 0 then 0
    else BlockWalls(g, w, h, x, y, k - 1) + ColumnWalls(g, w, h, x, y, x - 1 + k - 1, 3)
  }

  /** The number of walls around `(x, y)`. */
  ghost function WallCount(g: Grid, w: int, h: int, x: int, y: int): int
    requires IsGrid(g, w, h)
  {
    BlockWalls(g, w, h, x, y, 3)
  }

  /** A whole column of the block is the sum of its three contributions. */
  lemma ColumnOfThree(g: Grid, w: int, h: int, x: int, y: int, nx: int)
    requires IsGrid(g, w, h)
    ensures ColumnWalls(g, w, h, x, y, nx, 3) == NeighbourWall(g, w, h, x, y, nx, y - 1) +
      NeighbourWall(g, w, h, x, y, nx, y) + NeighbourWall(g, w, h, x, y, nx, y + 1)
  {
    assert ColumnWalls(g, w, h, x, y, nx, 1) == NeighbourWall(g, w, h, x, y, nx, y - 1);
  }

  /** The count is the sum of the eight neighbours' contributions; the centre is not among them. */
  lemma WallCountIsEightNeighbours(g: Grid, w: int, h: int, x: int, y: int)
    requires IsGrid(g, w, h) && InBounds(w, h, x, y)
    ensures WallCount(g, w, h, x, y) ==
      NeighbourWall(g, w, h, x, y, x - 1, y - 1) + NeighbourWall(g, w, h, x, y, x - 1, y) +
      NeighbourWall(g, w, h, x, y, x - 1, y + 1) + NeighbourWall(g, w, h, x, y, x, y - 1) +
      NeighbourWall(g, w, h, x, y, x, y + 1) + NeighbourWall(g, w, h, x, y, x + 1, y - 1) +
      NeighbourWall(g, w, h, x, y, x + 1, y) + NeighbourWall(g, w, h, x, y, x + 1, y + 1)
    ensures NeighbourWall(g, w, h, x, y, x, y) == 0
  {
    ColumnOfThree(g, w, h, x, y, x - 1);
    ColumnOfThree(g, w, h, x, y, x);
    ColumnOfThree(g, w, h, x, y, x + 1);
    assert BlockWalls(g, w, h, x, y, 1) == ColumnWalls(g, w, h, x, y, x - 1, 3);
    assert BlockWalls(g, w, h, x, y, 2) == BlockWalls(g, w, h, x, y, 1) + ColumnWalls(g, w, h, x, y, x, 3);
  }

  /** On a map of floors and walls the count lies in 0..8. */
  lemma WallCountRange(g: Grid, w: int, h: int, x: int, y: int)
    requires IsGrid(g, w, h) && Binary(g, w, h) && InBounds(w, h, x, y)
    ensures 0 <= WallCount(g, w, h, x, y) <= 8
  {
    WallCountIsEightNeighbours(g, w, h, x, y);
  }

  /** A border tile of a map of floors and walls whose ring is all wall has at least five
      walls around it: three off-map positions and its two neighbours along the ring. */
  lemma BorderTileWallCount(g: Grid, w: int, h: int, x: int, y: int)
    requires IsGrid(g, w, h) && Binary(g, w, h) && BorderWalls(g, w, h)
    requires InBounds(w, h, x, y) && OnBorder(w, h, x, y)
    ensures WallCount(g, w, h, x, y) >= 5
  {
    WallCountIsEightNeighbours(g, w, h, x, y);
  }

  /** The rule applied to a tile of value `v` with `count` walls around it. */
  function SmoothRule(v: int, count: int): int
  {
    if count > 4 then 1 else if count < 4 then 0 else v
  }

  /** On a floor or a wall the rule gives a floor or a wall, and a wall exactly when more
      than four neighbours are walls, or four and the tile already is one. */
  lemma SmoothRuleBinary(v: int, count: int)
    requires v == 0 || v == 1
    ensures SmoothRule(v, count) == 0 || SmoothRule(v, count) == 1
    ensures SmoothRule(v, count) == 1 <==> count > 4 || (count == 4 && v == 1)
  {
  }

  /** More walls around, or a wall in place of a floor, never give a floor where there was
      a wall: the rule is monotone in the count and in the tile. */
  lemma SmoothRuleMonotone(v: int, v': int, count: int, count': int)
    requires 0 <= v <= v' <= 1 && count <= count'
    ensures SmoothRule(v, count) <= SmoothRule(v', count')
  {
  }

  /** `(i, j)` comes before `(x, y)` in the pass's scan order (x outer, y inner). */
  predicate Before(i: int, j: int, x: int, y: int) {
    i < x || (i == x && j < y)
  }

  /** The map after the pass has rewritten, in place, every tile before `(x, y)`. */
  ghost function SweepTo(g: Grid, w: int, h: int, x: int, y: int): (r: Grid)
    requires IsGrid(g, w, h) && 0 <= x <= w && 0 <= y <= h && (x == w ==> y == 0)
    ensures IsGrid(r, w, h)
    decreases x, y
  {
    if y > 0 then
      var p := SweepTo(g, w, h, x, y - 1);
      Put(p, w, h, x, y - 1, SmoothRule(p[x][y - 1], WallCount(p, w, h, x, y - 1)))
    else if x > 0 then SweepTo(g, w, h, x - 1, h)
    else g
  }

  /** One smoothing pass over the whole map. */
  ghost function SmoothPass(g: Grid, w: nat, h: nat): (r: Grid)
    requires IsGrid(g, w, h)
    ensures IsGrid(r, w, h)
  {
    SweepTo(g, w, h, w, 0)
  }

  /** Five passes, as `GenerateMap` runs them. */
  ghost function SmoothTimes(g: Grid, w: nat, h: nat, n: nat): (r: Grid)
    requires IsGrid(g, w, h)
    ensures IsGrid(r, w, h)
  {
    if n == 0 then g else SmoothPass(SmoothTimes(g, w, h, n - 1), w, h)
  }

  /** Tiles the sweep has not reached still hold their original values. */
  lemma {:induction false} SweepKeepsUnvisited(g: Grid, w: int, h: int, x: int, y: int, i: int, j: int)
    requires IsGrid(g, w, h) && 0 <= x <= w && 0 <= y <= h && (x == w ==> y == 0)
    requires InBounds(w, h, i, j) && !Before(i, j, x, y)
    ensures SweepTo(g, w, h, x, y)[i][j] == g[i][j]
    decreases x, y
  {
    if y > 0 {
      SweepKeepsUnvisited(g, w, h, x, y - 1, i, j);
    } else if x > 0 {
      SweepKeepsUnvisited(g, w, h, x - 1, h, i, j);
    }
  }

  /** A tile the sweep has rewritten is never written again later in the pass. */
  lemma {:induction false} SweepKeepsVisited(g: Grid, w: int, h: int, x: int, y: int, x': int, y': int, i: int, j: int)
    requires IsGrid(g, w, h)
    requires 0 <= x <= w && 0 <= y <= h && (x == w ==> y == 0)
    requires 0 <= x' <= w && 0 <= y' <= h && (x' == w ==> y' == 0)
    requires Before(x, y, x', y') || (x == x' && y == y')
    requires InBounds(w, h, i, j) && Before(i, j, x, y)
    ensures SweepTo(g, w, h, x', y')[i][j] == SweepTo(g, w, h, x, y)[i][j]
    decreases x', y'
  {
    if x == x' && y == y' {
    } else if y' > 0 {
      if x == x' && y == y' - 1 {
      } else {
        SweepKeepsVisited(g, w, h, x, y, x', y' - 1, i, j);
      }
    } else {
      assert x' > 0;
      if x == x' - 1 && y == h {
      } else {
        SweepKeepsVisited(g, w, h, x, y, x' - 1, h, i, j);
      }
    }
  }

  /** The in-place pass: every tile is set by the rule from its own original value and the
      wall count of the map as it stands when the scan reaches it, in which every tile
      earlier in the scan already holds its final value and every later tile its original one. */
  lemma PassIsInPlace(g: Grid, w: nat, h: nat, x: int, y: int)
    requires IsGrid(g, w, h) && InBounds(w, h, x, y)
    ensures SmoothPass(g, w, h)[x][y] == SmoothRule(g[x][y], WallCount(SweepTo(g, w, h, x, y), w, h, x, y))
    ensures forall i, j :: InBounds(w, h, i, j) ==>
      SweepTo(g, w, h, x, y)[i][j] == if Before(i, j, x, y) then SmoothPass(g, w, h)[i][j] else g[i][j]
  {
    SweepKeepsUnvisited(g, w, h, x, y, x, y);
    SweepKeepsVisited(g, w, h, x, y + 1, w, 0, x, y);
    forall i, j | InBounds(w, h, i, j)
      ensures SweepTo(g, w, h, x, y)[i][j] == if Before(i, j, x, y) then SmoothPass(g, w, h)[i][j] else g[i][j]
    {
      if Before(i, j, x, y) {
        SweepKeepsVisited(g, w, h, x, y, w, 0, i, j);
      } else {
        SweepKeepsUnvisited(g, w, h, x, y, i, j);
      }
    }
  }

  /** A pass over floors and walls whose ring is all wall leaves floors and walls, and the
      ring all wall. */
  lemma {:induction false} SweepKeepsBinaryBorder(g: Grid, w: int, h: int, x: int, y: int)
    requires IsGrid(g, w, h) && Binary(g, w, h) && BorderWalls(g, w, h)
    requires 0 <= x <= w && 0 <= y <= h && (x == w ==> y == 0)
    ensures Binary(SweepTo(g, w, h, x, y), w, h) && BorderWalls(SweepTo(g, w, h, x, y), w, h)
    decreases x, y
  {
    if y > 0 {
      SweepKeepsBinaryBorder(g, w, h, x, y - 1);
      var p := SweepTo(g, w, h, x, y - 1);
      if OnBorder(w, h, x, y - 1) {
        BorderTileWallCount(p, w, h, x, y - 1);
      }
    } else if x > 0 {
      SweepKeepsBinaryBorder(g, w, h, x - 1, h);
    }
  }

  /** Smoothing any number of times keeps floors and walls, with the ring all wall. */
  lemma {:induction false} SmoothTimesKeepsBinaryBorder(g: Grid, w: nat, h: nat, n: nat)
    requires IsGrid(g, w, h) && Binary(g, w, h) && BorderWalls(g, w, h)
    ensures Binary(SmoothTimes(g, w, h, n), w, h) && BorderWalls(SmoothTimes(g, w, h, n), w, h)
  {
    if n > 0 {
      SmoothTimesKeepsBinaryBorder(g, w, h, n - 1);
      SweepKeepsBinaryBorder(SmoothTimes(g, w, h, n - 1), w, h, w, 0);
    }
  }
}
