/** Tile coordinates and tile maps of the cave generator.
    A map is stored column-major, `g[x][y]`, exactly as the C# `int[,]` is indexed `map[x, y]`. */
module Grids {

  /** A tile position (`Coord` in the generator). */
  datatype Coord = Coord(tileX: int, tileY: int)

  /** A map value: a sequence of columns. */
  type Grid = seq<seq<int>>

  /** `g` has `w` columns of `h` tiles each. */
  ghost predicate IsGrid(g: Grid, w: int, h: int) {
    |g| == w && forall x :: 0 <= x < |g| ==> |g[x]| == h
  }

  /** The position lies on a `w` by `h` map. */
  predicate InBounds(w: int, h: int, x: int, y: int) {
    0 <= x < w && 0 <= y < h
  }

  /** The position is on the outermost ring of a `w` by `h` map. */
  predicate OnBorder(w: int, h: int, x: int, y: int) {
    x == 0 || x == w - 1 || y == 0 || y == h - 1
  }

  /** The tile has all four orthogonal neighbours on the map. */
  predicate Interior(w: int, h: int, c: Coord) {
    1 <= c.tileX && c.tileX + 1 < w && 1 <= c.tileY && c.tileY + 1 < h
  }

  /** No tile of `tiles` lies on the border. */
  predicate AllInterior(w: int, h: int, tiles: seq<Coord>) {
    forall i :: 0 <= i < |tiles| ==> Interior(w, h, tiles[i])
  }

  /** The array holds exactly the map value `g`. */
  ghost predicate Mirrors(a: array2<int>, g: Grid)
    reads a
  {
    IsGrid(g, a.Length0, a.Length1) &&
    forall x, y :: 0 <= x < a.Length0 && 0 <= y < a.Length1 ==> a[x, y] == g[x][y]
  }

  /** The map after writing `v` at `(x, y)`. */
  ghost function Put(g: Grid, w: int, h: int, x: int, y: int, v: int): (r: Grid)
    requires IsGrid(g, w, h) && InBounds(w, h, x, y)
    ensures IsGrid(r, w, h) && r[x][y] == v
    ensures forall i, j :: InBounds(w, h, i, j) && (i != x || j != y) ==> r[i][j] == g[i][j]
  {
    g[x := g[x][y := v]]
  }

  /** A map of `w` by `h` zeros, the contents of a freshly allocated `int[w, h]`. */
  ghost function Zeros(w: nat, h: nat): (r: Grid)
    ensures IsGrid(r, w, h)
    ensures forall x, y :: InBounds(w, h, x, y) ==> r[x][y] == 0
  {
    seq(w, _ => seq(h, _ => 0))
  }

  /** Every tile is 0 (floor) or 1 (wall). */
  ghost predicate Binary(g: Grid, w: int, h: int)
    requires IsGrid(g, w, h)
  {
    forall x, y :: InBounds(w, h, x, y) ==> g[x][y] == 0 || g[x][y] == 1
  }

  /** Every tile of the outermost ring is a wall. */
  ghost predicate BorderWalls(g: Grid, w: int, h: int)
    requires IsGrid(g, w, h)
  {
    forall x, y :: InBounds(w, h, x, y) && OnBorder(w, h, x, y) ==> g[x][y] == 1
  }
}
