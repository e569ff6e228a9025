/** Regions of the map: maximal sets of same-valued tiles joined by orthogonal steps, as
    `GetRegionTiles` and `GetRegions` discover them. */
module Regions {
  import opened Grids

  /** `a` and `b` are orthogonal neighbours (one step up, down, left or right). */
  predicate Adjacent(a: Coord, b: Coord) {
    (a.tileX == b.tileX && (a.tileY - b.tileY == 1 || b.tileY - a.tileY == 1)) ||
    (a.tileY == b.tileY && (a.tileX - b.tileX == 1 || b.tileX - a.tileX == 1))
  }

  /** The four orthogonal neighbours of `c`. */
  function Neighbours(c: Coord): set<Coord> {
    {Coord(c.tileX - 1, c.tileY), Coord(c.tileX + 1, c.tileY), Coord(c.tileX, c.tileY - 1), Coord(c.tileX, c.tileY + 1)}
  }

  lemma NeighboursAreAdjacent(c: Coord, n: Coord)
    ensures Adjacent(c, n) <==> n in Neighbours(c)
  {
  }

  /** `c` is on the map and holds value `v`. */
  ghost predicate TileOf(g: Grid, w: int, h: int, v: int, c: Coord)
    requires IsGrid(g, w, h)
  {
    InBounds(w, h, c.tileX, c.tileY) && g[c.tileX][c.tileY] == v
  }

  /** A walk over tiles of value `v` by orthogonal steps. */
  ghost predicate IsPath(g: Grid, w: int, h: int, v: int, p: seq<Coord>)
    requires IsGrid(g, w, h)
  {
    |p| > 0 &&
    (forall i :: 0 <= i < |p| ==> TileOf(g, w, h, v, p[i])) &&
    (forall i :: 0 <= i < |p| - 1 ==> Adjacent(p[i], p[i + 1]))
  }

  /** `b` can be reached from `a` through tiles of value `v`. */
  ghost predicate Reachable(g: Grid, w: int, h: int, v: int, a: Coord, b: Coord)
    requires IsGrid(g, w, h)
  {
    exists p :: IsPath(g, w, h, v, p) && p[0] == a && p[|p| - 1] == b
  }

  /** No orthogonal step leads from `s` to a tile of value `v` outside `s`. */
  ghost predicate Closed(g: Grid, w: int, h: int, v: int, s: set<Coord>)
    requires IsGrid(g, w, h)
  {
    forall c, n :: c in s && Adjacent(c, n) && TileOf(g, w, h, v, n) ==> n in s
  }

  /** `tiles` is the region of value `v` around its first tile: without repetitions, every
      tile of value `v` and reachable from the first, and closed under orthogonal steps to
      tiles of value `v`. */
  ghost predicate IsRegion(g: Grid, w: int, h: int, v: int, tiles: seq<Coord>)
    requires IsGrid(g, w, h)
  {
    |tiles| > 0 &&
    (forall i, j :: 0 <= i < j < |tiles| ==> tiles[i] != tiles[j]) &&
    (forall i :: 0 <= i < |tiles| ==> TileOf(g, w, h, v, tiles[i]) && Reachable(g, w, h, v, tiles[0], tiles[i])) &&
    Closed(g, w, h, v, set c | c in tiles)
  }

  /** Every tile of value `v` reaches itself. */
  lemma ReachableSelf(g: Grid, w: int, h: int, v: int, a: Coord)
    requires IsGrid(g, w, h) && TileOf(g, w, h, v, a)
    ensures Reachable(g, w, h, v, a, a)
  {
    assert IsPath(g, w, h, v, [a]);
  }

  /** One more orthogonal step onto a tile of value `v` extends reachability. */
  lemma ReachableStep(g: Grid, w: int, h: int, v: int, a: Coord, b: Coord, c: Coord)
    requires IsGrid(g, w, h) && Reachable(g, w, h, v, a, b) && Adjacent(b, c) && TileOf(g, w, h, v, c)
    ensures Reachable(g, w, h, v, a, c)
  {
    var p :| IsPath(g, w, h, v, p) && p[0] == a && p[|p| - 1] == b;
    var q := p + [c];
    assert IsPath(g, w, h, v, q) && q[0] == a && q[|q| - 1] == c;
  }

  /** All positions of a `w` by `h` map. */
  function AllTiles(w: int, h: int): set<Coord> {
    set x, y | 0 <= x < w && 0 <= y < h :: Coord(x, y)
  }

  /** A walk that starts inside a closed set never leaves it. */
  lemma {:induction false} ClosedHoldsPath(g: Grid, w: int, h: int, v: int, s: set<Coord>, p: seq<Coord>)
    requires IsGrid(g, w, h) && Closed(g, w, h, v, s) && IsPath(g, w, h, v, p) && p[0] in s
    ensures forall i :: 0 <= i < |p| ==> p[i] in s
  {
    if |p| > 1 {
      ClosedHoldsPath(g, w, h, v, s, p[..|p| - 1]);
      assert p[|p| - 2] in s;
    }
  }

  /** The walk reversed is again a walk. */
  lemma ReversePath(g: Grid, w: int, h: int, v: int, p: seq<Coord>) returns (q: seq<Coord>)
    requires IsGrid(g, w, h) && IsPath(g, w, h, v, p)
    ensures IsPath(g, w, h, v, q) && |q| == |p| && q[0] == p[|p| - 1] && q[|q| - 1] == p[0]
  {
    q := seq(|p|, i requires 0 <= i < |p| => p[|p| - 1 - i]);
    forall i | 0 <= i < |q| - 1
      ensures Adjacent(q[i], q[i + 1])
    {
      assert Adjacent(p[|p| - 2 - i], p[|p| - 1 - i]);
    }
  }

  /** Reachability is symmetric. */
  lemma ReachableSymmetric(g: Grid, w: int, h: int, v: int, a: Coord, b: Coord)
    requires IsGrid(g, w, h) && Reachable(g, w, h, v, a, b)
    ensures Reachable(g, w, h, v, b, a)
  {
    var p :| IsPath(g, w, h, v, p) && p[0] == a && p[|p| - 1] == b;
    var q := ReversePath(g, w, h, v, p);
  }

  /** A closed set holding `a` holds every tile reachable from `a`. */
  lemma ClosedHoldsReachable(g: Grid, w: int, h: int, v: int, s: set<Coord>, a: Coord, b: Coord)
    requires IsGrid(g, w, h) && Closed(g, w, h, v, s) && a in s && Reachable(g, w, h, v, a, b)
    ensures b in s
  {
    var p :| IsPath(g, w, h, v, p) && p[0] == a && p[|p| - 1] == b;
    ClosedHoldsPath(g, w, h, v, s, p);
  }

  /** A region is exactly the set of tiles reachable from its first tile. */
  lemma RegionIsReachableSet(g: Grid, w: int, h: int, v: int, tiles: seq<Coord>, c: Coord)
    requires IsGrid(g, w, h) && IsRegion(g, w, h, v, tiles)
    ensures c in tiles <==> Reachable(g, w, h, v, tiles[0], c)
  {
    if Reachable(g, w, h, v, tiles[0], c) {
      ClosedHoldsReachable(g, w, h, v, (set t | t in tiles), tiles[0], c);
    }
  }

  /** Two regions of the same value that share a tile hold the same tiles. */
  lemma RegionsOverlapEqual(g: Grid, w: int, h: int, v: int, r: seq<Coord>, q: seq<Coord>, c: Coord)
    requires IsGrid(g, w, h) && IsRegion(g, w, h, v, r) && IsRegion(g, w, h, v, q)
    requires c in r && c in q
    ensures forall t :: t in r <==> t in q
  {
    RegionIsReachableSet(g, w, h, v, r, c);
    RegionIsReachableSet(g, w, h, v, q, c);
    ReachableSymmetric(g, w, h, v, r[0], c);
    ReachableSymmetric(g, w, h, v, q[0], c);
    ClosedHoldsReachable(g, w, h, v, (set t | t in q), c, r[0]);
    ClosedHoldsReachable(g, w, h, v, (set t | t in r), c, q[0]);
    forall t | t in r ensures t in q {
      RegionIsReachableSet(g, w, h, v, r, t);
      ClosedHoldsReachable(g, w, h, v, (set u | u in q), r[0], t);
    }
    forall t | t in q ensures t in r {
      RegionIsReachableSet(g, w, h, v, q, t);
      ClosedHoldsReachable(g, w, h, v, (set u | u in r), q[0], t);
    }
  }

  /** `c` lies in one of the regions. */
  ghost predicate InSome(regions: seq<seq<Coord>>, c: Coord) {
    exists k :: 0 <= k < |regions| && c in regions[k]
  }

  /** No tile lies in two of the regions. */
  ghost predicate PairwiseDisjoint(regions: seq<seq<Coord>>) {
    forall i, j, c :: 0 <= i < j < |regions| && c in regions[i] ==> c !in regions[j]
  }

  lemma InSomeAppend(regions: seq<seq<Coord>>, r: seq<Coord>, c: Coord)
    ensures InSome(regions + [r], c) <==> InSome(regions, c) || c in r
  {
    var all := regions + [r];
    if c in r {
      assert all[|regions|] == r;
    }
    if InSome(regions, c) {
      var k :| 0 <= k < |regions| && c in regions[k];
      assert all[k] == regions[k];
    }
    if InSome(all, c) && c !in r {
      var k :| 0 <= k < |all| && c in all[k];
      assert k < |regions| && all[k] == regions[k];
    }
  }

  /** The regions found so far: regions of value `v`, pairwise disjoint, and `covered` is
      the set of their tiles. */
  ghost predicate Found(g: Grid, w: int, h: int, v: int, regions: seq<seq<Coord>>, covered: set<Coord>)
    requires IsGrid(g, w, h)
  {
    (forall i :: 0 <= i < |regions| ==> IsRegion(g, w, h, v, regions[i])) &&
    PairwiseDisjoint(regions) &&
    (forall c :: c in covered <==> InSome(regions, c))
  }

  /** A region found from a tile outside every earlier region shares no tile with them. */
  lemma AddRegion(g: Grid, w: int, h: int, v: int, regions: seq<seq<Coord>>, r: seq<Coord>, covered: set<Coord>)
    requires IsGrid(g, w, h) && Found(g, w, h, v, regions, covered)
    requires IsRegion(g, w, h, v, r) && r[0] !in covered
    ensures Found(g, w, h, v, regions + [r], covered + set c | c in r)
  {
    forall i, c | 0 <= i < |regions| && c in regions[i]
      ensures c !in r
    {
      if c in r {
        RegionsOverlapEqual(g, w, h, v, regions[i], r, c);
        assert false;
      }
    }
    forall c
      ensures c in covered + (set c | c in r) <==> InSome(regions + [r], c)
    {
      InSomeAppend(regions, r, c);
    }
  }

  /** The tiles of a list, as a set. */
  ghost function TileSet(s: seq<Coord>): set<Coord> {
    set c | c in s
  }

  lemma TileSetAppend(a: seq<Coord>, b: seq<Coord>)
    ensures TileSet(a + b) == TileSet(a) + TileSet(b)
  {
  }

  /** What the neighbour scan of the flood fill enqueues at `(x, y)` of the 3x3 block around
      `t`: that position, if it is on the map, shares a row or a column with `t`, has value
      `v` and is not in `marked`. */
  ghost function Probe(g: Grid, w: int, h: int, v: int, marked: set<Coord>, t: Coord, x: int, y: int): seq<Coord>
    requires IsGrid(g, w, h)
  {
    if InBounds(w, h, x, y) && (x == t.tileX || y == t.tileY) && g[x][y] == v && Coord(x, y) !in marked
    then [Coord(x, y)] else []
  }

  /** What the scan of column `x` of the block around `t` enqueues above row `y`. */
  ghost function ColumnProbes(g: Grid, w: int, h: int, v: int, marked: set<Coord>, t: Coord, x: int, y: int): seq<Coord>
    requires IsGrid(g, w, h)
    decreases y - t.tileY
  {
    if y <= t.tileY - 1 then []
    else ColumnProbes(g, w, h, v, marked, t, x, y - 1) + Probe(g, w, h, v, marked, t, x, y - 1)
  }

  /** What the scan of the block around `t` enqueues left of column `x`. */
  ghost function BlockProbes(g: Grid, w: int, h: int, v: int, marked: set<Coord>, t: Coord, x: int): seq<Coord>
    requires IsGrid(g, w, h)
    decreases x - t.tileX
  {
    if x <= t.tileX - 1 then []
    else BlockProbes(g, w, h, v, marked, t, x - 1) + ColumnProbes(g, w, h, v, marked, t, x - 1, t.tileY + 2)
  }

  /** The tiles the dequeued tile `t` adds to the queue, in the order the scan meets them. */
  ghost function Expand(g: Grid, w: int, h: int, v: int, marked: set<Coord>, t: Coord): seq<Coord>
    requires IsGrid(g, w, h)
  {
    BlockProbes(g, w, h, v, marked, t, t.tileX + 2)
  }

  /** A column of the scan enqueues only unmarked tiles of that column on the map, above the
      row it has reached. */
  lemma {:induction false} ColumnProbesBounds(g: Grid, w: int, h: int, v: int, marked: set<Coord>, t: Coord, x: int, y: int)
    requires IsGrid(g, w, h)
    ensures forall c :: c in ColumnProbes(g, w, h, v, marked, t, x, y) ==>
      c in AllTiles(w, h) && c !in marked && c.tileX == x && c.tileY < y &&
      (t in marked && t.tileX - 1 <= x <= t.tileX + 1 && y <= t.tileY + 2 ==> Adjacent(t, c))
    decreases y - t.tileY
  {
    if y > t.tileY - 1 {
      ColumnProbesBounds(g, w, h, v, marked, t, x, y - 1);
      if InBounds(w, h, x, y - 1) {
        assert Coord(x, y - 1) in AllTiles(w, h);
      }
    }
  }

  /** The block scan enqueues only unmarked tiles on the map, left of the column it has
      reached. */
  lemma {:induction false} BlockProbesBounds(g: Grid, w: int, h: int, v: int, marked: set<Coord>, t: Coord, x: int)
    requires IsGrid(g, w, h)
    ensures forall c :: c in BlockProbes(g, w, h, v, marked, t, x) ==> c in AllTiles(w, h) && c !in marked && c.tileX < x
    decreases x - t.tileX
  {
    if x > t.tileX - 1 {
      BlockProbesBounds(g, w, h, v, marked, t, x - 1);
      ColumnProbesBounds(g, w, h, v, marked, t, x - 1, t.tileY + 2);
    }
  }

  /** The breadth-first flood fill through tiles of value `v`, run to its end from the state
      where `tiles` have been dequeued, `queue` is waiting and `marked` is flagged: the front
      of the queue is dequeued into the tiles and what `Expand` finds for it is enqueued and
      flagged, until the queue is empty. */
  ghost function Bfs(g: Grid, w: int, h: int, v: int, marked: set<Coord>, queue: seq<Coord>, tiles: seq<Coord>): seq<Coord>
    requires IsGrid(g, w, h)
    decreases AllTiles(w, h) - marked, |queue|
  {
    if queue == [] then tiles
    else
      var t := queue[0];
      var next := Expand(g, w, h, v, marked, t);
      BlockProbesBounds(g, w, h, v, marked, t, t.tileX + 2);
      assert next != [] ==> next[0] in AllTiles(w, h) - marked && next[0] !in AllTiles(w, h) - (marked + TileSet(next));
      assert next == [] ==> marked + TileSet(next) == marked;
      Bfs(g, w, h, v, marked + TileSet(next), queue[1..] + next, tiles + [t])
  }

  /** One round of the fill: dequeue the front and enqueue its expansion. */
  lemma BfsStep(g: Grid, w: int, h: int, v: int, marked: set<Coord>, queue: seq<Coord>, tiles: seq<Coord>)
    requires IsGrid(g, w, h) && queue != []
    ensures Bfs(g, w, h, v, marked, queue, tiles)
         == Bfs(g, w, h, v, marked + TileSet(Expand(g, w, h, v, marked, queue[0])),
                queue[1..] + Expand(g, w, h, v, marked, queue[0]), tiles + [queue[0]])
  {
  }

  /** `GetRegionTiles` from `start` through tiles of value `v`: the tiles in the order the
      breadth-first fill dequeues them. */
  ghost function FloodFrom(g: Grid, w: int, h: int, v: int, start: Coord): seq<Coord>
    requires IsGrid(g, w, h)
  {
    Bfs(g, w, h, v, {start}, [start], [])
  }

  /** The regions of value `v` that the scan of `GetRegions` (x outer, y inner) has found
      before position `(x, y)`: at each tile of value `v` that no region found so far
      holds, the flood fill from that tile, appended. */
  ghost function ScanRegions(g: Grid, w: int, h: int, v: int, x: int, y: int): seq<seq<Coord>>
    requires IsGrid(g, w, h) && 0 <= x <= w && 0 <= y <= h && (x == w ==> y == 0)
    decreases x, y
  {
    if y > 0 then
      var found := ScanRegions(g, w, h, v, x, y - 1);
      if g[x][y - 1] == v && !InSome(found, Coord(x, y - 1)) then found + [FloodFrom(g, w, h, v, Coord(x, y - 1))]
      else found
    else if x > 0 then ScanRegions(g, w, h, v, x - 1, h)
    else []
  }
}
