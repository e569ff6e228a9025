/** Pruning of small regions: `ProcessMap` overwrites every tile of a region smaller than
    the threshold with a fresh draw in `[minValue, maxValue)`, all regions of one pass
    reading from the same generator in order. */
module Pruning {
  import opened Grids
  import opened Rng
  import opened Regions
  import opened Rooms

  /** Every tile of `tiles` lies on the map. */
  ghost predicate OnMap(w: int, h: int, tiles: seq<Coord>) {
    forall i :: 0 <= i < |tiles| ==> InBounds(w, h, tiles[i].tileX, tiles[i].tileY)
  }

  /** No tile occurs twice. */
  ghost predicate Distinct(tiles: seq<Coord>) {
    forall i, j :: 0 <= i < j < |tiles| ==> tiles[i] != tiles[j]
  }

  /** The map after the draws from samples `from`, `from + 1`, ... are written to the tiles
      in order. */
  ghost function Refill(g: Grid, w: int, h: int, tiles: seq<Coord>, samples: nat -> nat, from: nat, lo: int, hi: int): (r: Grid)
    requires IsGrid(g, w, h) && OnMap(w, h, tiles) && lo <= hi
    ensures IsGrid(r, w, h)
    decreases |tiles|
  {
    if tiles == [] then g
    else
      var n := |tiles| - 1;
      Put(Refill(g, w, h, tiles[..n], samples, from, lo, hi), w, h, tiles[n].tileX, tiles[n].tileY,
          Draw(samples(from + n), lo, hi))
  }

  /** Tiles outside the list keep their value. */
  lemma {:induction false} RefillFrame(g: Grid, w: int, h: int, tiles: seq<Coord>, samples: nat -> nat, from: nat,
                                       lo: int, hi: int, x: int, y: int)
    requires IsGrid(g, w, h) && OnMap(w, h, tiles) && lo <= hi
    requires InBounds(w, h, x, y) && Coord(x, y) !in tiles
    ensures Refill(g, w, h, tiles, samples, from, lo, hi)[x][y] == g[x][y]
    decreases |tiles|
  {
    if tiles != [] {
      var n := |tiles| - 1;
      assert Coord(x, y) !in tiles[..n];
      RefillFrame(g, w, h, tiles[..n], samples, from, lo, hi, x, y);
    }
  }

  /** The `i`-th tile of a list without repetitions holds the `i`-th draw. */
  lemma {:induction false} RefillWrites(g: Grid, w: int, h: int, tiles: seq<Coord>, samples: nat -> nat, from: nat,
                                        lo: int, hi: int, i: int)
    requires IsGrid(g, w, h) && OnMap(w, h, tiles) && lo <= hi && Distinct(tiles) && 0 <= i < |tiles|
    ensures Refill(g, w, h, tiles, samples, from, lo, hi)[tiles[i].tileX][tiles[i].tileY] == Draw(samples(from + i), lo, hi)
    decreases |tiles|
  {
    var n := |tiles| - 1;
    if i < n {
      assert tiles[i] == tiles[..n][i] && tiles[i] != tiles[n];
      RefillWrites(g, w, h, tiles[..n], samples, from, lo, hi, i);
    }
  }

  /** After pruning the regions listed, in order: the map, and how many samples were used. */
  datatype Pruned = Pruned(grid: Grid, used: nat)

  /** Refills, in order and from consecutive samples starting at `from`, every region of
      `regions` with fewer than `threshold` tiles; larger regions are left alone. */
  ghost function Prune(g: Grid, w: int, h: int, regions: seq<seq<Coord>>, threshold: int, samples: nat -> nat,
                       from: nat, lo: int, hi: int): (p: Pruned)
    requires IsGrid(g, w, h) && lo <= hi && forall k :: 0 <= k < |regions| ==> OnMap(w, h, regions[k])
    ensures IsGrid(p.grid, w, h) && p.used >= from
    decreases |regions|
  {
    if regions == [] then Pruned(g, from)
    else
      var n := |regions| - 1;
      var before := Prune(g, w, h, regions[..n], threshold, samples, from, lo, hi);
      if |regions[n]| < threshold then
        Pruned(Refill(before.grid, w, h, regions[n], samples, before.used, lo, hi), before.used + |regions[n]|)
      else before
  }

  /** Pruning one more region refills it when it is small and leaves the map alone otherwise. */
  lemma PruneStep(g: Grid, w: int, h: int, regions: seq<seq<Coord>>, k: int, threshold: int, samples: nat -> nat,
                  from: nat, lo: int, hi: int)
    requires IsGrid(g, w, h) && lo <= hi && forall j :: 0 <= j < |regions| ==> OnMap(w, h, regions[j])
    requires 0 <= k < |regions|
    ensures var before := Prune(g, w, h, regions[..k], threshold, samples, from, lo, hi);
      Prune(g, w, h, regions[..k + 1], threshold, samples, from, lo, hi) ==
        if |regions[k]| < threshold then
          Pruned(Refill(before.grid, w, h, regions[k], samples, before.used, lo, hi), before.used + |regions[k]|)
        else before
  {
    assert regions[..k + 1][..k] == regions[..k];
  }

  /** A tile in no small region keeps its value. */
  lemma {:induction false} PruneKeeps(g: Grid, w: int, h: int, regions: seq<seq<Coord>>, threshold: int,
                                      samples: nat -> nat, from: nat, lo: int, hi: int, x: int, y: int)
    requires IsGrid(g, w, h) && lo <= hi && forall k :: 0 <= k < |regions| ==> OnMap(w, h, regions[k])
    requires InBounds(w, h, x, y)
    requires forall k :: 0 <= k < |regions| && |regions[k]| < threshold ==> Coord(x, y) !in regions[k]
    ensures Prune(g, w, h, regions, threshold, samples, from, lo, hi).grid[x][y] == g[x][y]
    decreases |regions|
  {
    if regions != [] {
      var n := |regions| - 1;
      PruneKeeps(g, w, h, regions[..n], threshold, samples, from, lo, hi, x, y);
      var before := Prune(g, w, h, regions[..n], threshold, samples, from, lo, hi);
      if |regions[n]| < threshold {
        RefillFrame(before.grid, w, h, regions[n], samples, before.used, lo, hi, x, y);
      }
    }
  }

  /** A tile of a small region ends with a draw: in `[lo, hi)`, or `lo` when that range is
      empty, provided no later region holds it again. */
  lemma {:induction false} PruneRefills(g: Grid, w: int, h: int, regions: seq<seq<Coord>>, threshold: int,
                                        samples: nat -> nat, from: nat, lo: int, hi: int, k: int, x: int, y: int)
    requires IsGrid(g, w, h) && lo <= hi && forall k :: 0 <= k < |regions| ==> OnMap(w, h, regions[k])
    requires forall k :: 0 <= k < |regions| ==> Distinct(regions[k])
    requires PairwiseDisjoint(regions)
    requires 0 <= k < |regions| && |regions[k]| < threshold && Coord(x, y) in regions[k]
    ensures var v := Prune(g, w, h, regions, threshold, samples, from, lo, hi).grid[x][y];
      (lo < hi ==> lo <= v < hi) && (lo == hi ==> v == lo)
    decreases |regions|
  {
    var n := |regions| - 1;
    var before := Prune(g, w, h, regions[..n], threshold, samples, from, lo, hi);
    assert InBounds(w, h, x, y) by {
      var i :| 0 <= i < |regions[k]| && regions[k][i] == Coord(x, y);
    }
    if k < n {
      assert regions[..n][k] == regions[k];
      PruneRefills(g, w, h, regions[..n], threshold, samples, from, lo, hi, k, x, y);
      if |regions[n]| < threshold {
        assert Coord(x, y) !in regions[n];
        RefillFrame(before.grid, w, h, regions[n], samples, before.used, lo, hi, x, y);
      }
    } else {
      var i :| 0 <= i < |regions[n]| && regions[n][i] == Coord(x, y);
      RefillWrites(before.grid, w, h, regions[n], samples, before.used, lo, hi, i);
    }
  }

  /** The regions with at least `threshold` tiles, in order: those that become rooms. */
  ghost function Large(regions: seq<seq<Coord>>, threshold: int): (r: seq<seq<Coord>>)
  {
    if regions == [] then []
    else
      var n := |regions| - 1;
      Large(regions[..n], threshold) + (if |regions[n]| >= threshold then [regions[n]] else [])
  }

  /** The large regions are regions of the list with at least `threshold` tiles each. */
  lemma {:induction false} LargeAreLarge(regions: seq<seq<Coord>>, threshold: int)
    ensures forall i :: 0 <= i < |Large(regions, threshold)| ==>
      |Large(regions, threshold)[i]| >= threshold && Large(regions, threshold)[i] in regions
  {
    if regions != [] {
      var n := |regions| - 1;
      LargeAreLarge(regions[..n], threshold);
      forall i | 0 <= i < |Large(regions[..n], threshold)|
        ensures Large(regions[..n], threshold)[i] in regions
      {
        var t := Large(regions[..n], threshold)[i];
        var j :| 0 <= j < n && regions[..n][j] == t;
        assert regions[j] == t;
      }
    }
  }

  /** One more region adds itself to the large ones when it is large. */
  lemma LargeStep(regions: seq<seq<Coord>>, k: int, threshold: int)
    requires 0 <= k < |regions|
    ensures Large(regions[..k + 1], threshold) ==
      Large(regions[..k], threshold) + if |regions[k]| >= threshold then [regions[k]] else []
  {
    assert regions[..k + 1][..k] == regions[..k];
  }

  /** Pruning with draws that are all floor or wall keeps a map of floors and walls. */
  lemma PruneBinary(g: Grid, w: int, h: int, regions: seq<seq<Coord>>, threshold: int, samples: nat -> nat,
                    from: nat, lo: int, hi: int)
    requires IsGrid(g, w, h) && Binary(g, w, h) && 0 <= lo <= 1 && lo <= hi <= 2
    requires forall k :: 0 <= k < |regions| ==> OnMap(w, h, regions[k]) && Distinct(regions[k])
    requires PairwiseDisjoint(regions)
    ensures Binary(Prune(g, w, h, regions, threshold, samples, from, lo, hi).grid, w, h)
  {
    var r := Prune(g, w, h, regions, threshold, samples, from, lo, hi).grid;
    forall x, y | InBounds(w, h, x, y)
      ensures r[x][y] == 0 || r[x][y] == 1
    {
      if k :| 0 <= k < |regions| && |regions[k]| < threshold && Coord(x, y) in regions[k] {
        PruneRefills(g, w, h, regions, threshold, samples, from, lo, hi, k, x, y);
      } else {
        PruneKeeps(g, w, h, regions, threshold, samples, from, lo, hi, x, y);
      }
    }
  }

  /** Pruning regions of value `v` leaves every tile of another value alone. */
  lemma PruneKeepsOthers(g: Grid, w: int, h: int, v: int, regions: seq<seq<Coord>>, threshold: int,
                         samples: nat -> nat, from: nat, lo: int, hi: int)
    requires IsGrid(g, w, h) && lo <= hi && forall k :: 0 <= k < |regions| ==> OnMap(w, h, regions[k])
    requires forall c :: InSome(regions, c) ==> TileOf(g, w, h, v, c)
    ensures forall x, y :: InBounds(w, h, x, y) && g[x][y] != v ==>
      Prune(g, w, h, regions, threshold, samples, from, lo, hi).grid[x][y] == g[x][y]
  {
    forall x, y | InBounds(w, h, x, y) && g[x][y] != v
      ensures Prune(g, w, h, regions, threshold, samples, from, lo, hi).grid[x][y] == g[x][y]
    {
      forall k | 0 <= k < |regions| && |regions[k]| < threshold
        ensures Coord(x, y) !in regions[k]
      {
        if Coord(x, y) in regions[k] {
          assert InSome(regions, Coord(x, y));
          assert false;
        }
      }
      PruneKeeps(g, w, h, regions, threshold, samples, from, lo, hi, x, y);
    }
  }

  /** A tile in one of the first `n` regions is in one of the regions. */
  lemma InSomePrefix(regions: seq<seq<Coord>>, n: int, c: Coord)
    requires 0 <= n <= |regions| && InSome(regions[..n], c)
    ensures InSome(regions, c)
  {
    var k :| 0 <= k < n && c in regions[..n][k];
    assert regions[..n][k] == regions[k];
  }

  /** The index of a tile with the largest `tileX`. */
  lemma {:induction false} RightMost(tiles: seq<Coord>) returns (m: int)
    requires |tiles| > 0
    ensures 0 <= m < |tiles| && forall i :: 0 <= i < |tiles| ==> tiles[i].tileX <= tiles[m].tileX
  {
    if |tiles| == 1 {
      m := 0;
    } else {
      var n := |tiles| - 1;
      m := RightMost(tiles[..n]);
      assert forall i :: 0 <= i < n ==> tiles[i] == tiles[..n][i];
      if tiles[n].tileX > tiles[m].tileX {
        m := n;
      }
    }
  }

  /** A floor region of a map `wm` of floors and walls, with no tile on the border, has an
      edge tile when probed on any map `g` that agrees with `wm` off the floor: the
      right-hand neighbour of its right-most tile is a wall. */
  lemma RegionHasEdgeTile(wm: Grid, g: Grid, w: int, h: int, tiles: seq<Coord>)
    requires IsGrid(wm, w, h) && IsGrid(g, w, h) && Binary(wm, w, h)
    requires IsRegion(wm, w, h, 0, tiles) && forall i :: 0 <= i < |tiles| ==> Interior(w, h, tiles[i])
    requires forall x, y :: InBounds(w, h, x, y) && wm[x][y] != 0 ==> g[x][y] == wm[x][y]
    ensures EdgeTilesOf(g, w, h, tiles) != []
  {
    var m := RightMost(tiles);
    var t := tiles[m];
    var n := Coord(t.tileX + 1, t.tileY);
    assert Interior(w, h, t);
    assert n !in tiles;
    assert Adjacent(t, n) && t in (set c | c in tiles);
    assert !TileOf(wm, w, h, 0, n);
    assert TouchesWall(g, w, h, t);
    EdgeTilesAreWallTouching(g, w, h, tiles, t);
  }

  /** Region `k` of the floor regions of a map `g` of floors and walls, inside the border,
      still has an edge tile on the map reached once the regions before it are pruned with
      floors and walls. */
  lemma LaterRoomHasEdgeTile(g: Grid, w: int, h: int, regions: seq<seq<Coord>>, k: int, threshold: int,
                             samples: nat -> nat, from: nat, lo: int, hi: int)
    requires IsGrid(g, w, h) && Binary(g, w, h) && lo <= hi
    requires forall j :: 0 <= j < |regions| ==> IsRegion(g, w, h, 0, regions[j]) && OnMap(w, h, regions[j])
    requires forall c :: InSome(regions, c) <==> TileOf(g, w, h, 0, c)
    requires 0 <= k < |regions| && AllInterior(w, h, regions[k])
    ensures EdgeTilesOf(Prune(g, w, h, regions[..k], threshold, samples, from, lo, hi).grid, w, h, regions[k]) != []
  {
    forall c | InSome(regions[..k], c)
      ensures TileOf(g, w, h, 0, c)
    {
      InSomePrefix(regions, k, c);
    }
    PruneKeepsOthers(g, w, h, 0, regions[..k], threshold, samples, from, lo, hi);
    RegionHasEdgeTile(g, Prune(g, w, h, regions[..k], threshold, samples, from, lo, hi).grid, w, h, regions[k]);
  }

  /** The regions `GetRegions` returns can be refilled: each lies on the map, is not empty and
      lists no tile twice. */
  lemma RegionsOnMap(g: Grid, w: int, h: int, v: int, regions: seq<seq<Coord>>)
    requires IsGrid(g, w, h) && forall k :: 0 <= k < |regions| ==> IsRegion(g, w, h, v, regions[k])
    ensures forall k :: 0 <= k < |regions| ==> OnMap(w, h, regions[k]) && regions[k] != [] && Distinct(regions[k])
  {
    forall k | 0 <= k < |regions|
      ensures OnMap(w, h, regions[k])
    {
      forall i | 0 <= i < |regions[k]|
        ensures InBounds(w, h, regions[k][i].tileX, regions[k][i].tileY)
      {
        assert TileOf(g, w, h, v, regions[k][i]);
      }
    }
  }
}
