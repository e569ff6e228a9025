/** The cave generator: an `int[,]` map filled at random, smoothed, pruned of small regions,
    its rooms connected by carved passages, and finally wrapped in a random ring. */
module MapGenerators {
  import opened Grids
  import opened Smoothing
  import opened Raster
  import opened Regions
  import opened Pruning
  import opened Rng
  import opened Rooms
  import opened Closest

  /** The exceptions `GenerateMap` can end with. */
  datatype MapError =
    | LevelOutOfRange   // `seeds[level]` outside the table
    | MinAboveMax       // `System.Random.Next(minValue, maxValue)` with `minValue > maxValue`
    | RoomOnMapEdge     // `Room` probing a neighbour off the map

  datatype Result<T> = Ok(value: T) | Err(error: MapError)

  /** The rooms' passages and marks and the map at one moment. */
  datatype Snapshot = Snapshot(links: map<Room, seq<Room>>, marks: map<Room, bool>, grid: Grid)

  /** What the stages of `ProcessMap` produce: its error, the wall regions, the map once the
      small ones are refilled, the floor regions of that map, the map once the small ones of
      those are refilled, the rooms made from the others, and the passages that join them. */
  datatype Stages = Stages(error: Option<MapError>, walls: seq<seq<Coord>>, walled: Grid, floors: seq<seq<Coord>>,
                           pruned: Grid, survivors: seq<Room>, passages: seq<Candidate>)

  /** One seed per level. */
  const Seeds: seq<string> := ["sas", "a2", "sa2", "sd4", "23", "43", "123", "34", "vc", "czd", "trw"]
  const SmoothingIterations := 5
  const WallThresholdSize := 50
  const RoomThresholdSize := 50
  const PassageRadius := 5
  const BorderSize := 1

  /** `n` clamped to `[0, hi]` (to 0 when `hi < 0`). */
  function Clamp(n: int, hi: int): nat {
    if n < 0 || hi < 0 then 0 else if n > hi then hi else n
  }

  /** How many interior tiles of a `w` by `h` map come before `(x, y)` in scan order (x outer,
      y inner): the number of samples `RandomFillMap` has drawn when it reaches `(x, y)`. */
  function DrawsBefore(w: int, h: int, x: int, y: int): nat {
    Clamp(x - 1, w - 2) * Clamp(h - 2, h - 2) + (if 1 <= x <= w - 2 then Clamp(y - 1, h - 2) else 0)
  }

  /** For an interior tile the count is `(x - 1) * (h - 2) + (y - 1)`. */
  lemma DrawsBeforeInterior(w: int, h: int, x: int, y: int)
    requires InBounds(w, h, x, y) && !OnBorder(w, h, x, y)
    ensures DrawsBefore(w, h, x, y) == (x - 1) * (h - 2) + (y - 1)
  {
  }

  /** Finishing column `x` leaves the count where column `x + 1` starts. */
  lemma NextColumnDraws(w: int, h: int, x: int)
    requires 0 <= x < w
    ensures DrawsBefore(w, h, x, h) == DrawsBefore(w, h, x + 1, 0)
  {
    var rows := Clamp(h - 2, h - 2);
    if 1 <= x <= w - 2 {
      assert Clamp(x, w - 2) == Clamp(x - 1, w - 2) + 1;
      assert (Clamp(x - 1, w - 2) + 1) * rows == Clamp(x - 1, w - 2) * rows + rows;
    }
  }

  /** The value `RandomFillMap` writes at `(x, y)`: a wall on the border; inside, a wall when the
      generator's draw for that tile, in `0..99`, is below the fill percentage. */
  function FillValue(samples: nat -> nat, w: int, h: int, percent: int, x: int, y: int): int
    requires InBounds(w, h, x, y)
  {
    if OnBorder(w, h, x, y) then 1
    else if Draw(samples(DrawsBefore(w, h, x, y)), 0, 100) < percent then 1
    else 0
  }

  /** The random fill holds only floors and walls, with walls all round the border. */
  lemma FillIsBinaryWithBorder(g: Grid, samples: nat -> nat, w: int, h: int, percent: int)
    requires IsGrid(g, w, h)
    requires forall x, y :: InBounds(w, h, x, y) ==> g[x][y] == FillValue(samples, w, h, percent, x, y)
    ensures Binary(g, w, h) && BorderWalls(g, w, h)
  {
  }

  /** Position of `(x, y)` among the ring tiles of a `w` by `h` map in scan order (x outer,
      y inner): the sample the bordering loop draws for it. */
  function RingIndex(w: int, h: int, x: int, y: int): int {
    if x == 0 then y
    else if x < w - 1 then h + 2 * (x - 1) + (if y == 0 then 0 else 1)
    else h + 2 * (w - 2) + y
  }

  /** Ring tiles drawn before column `x` is scanned. */
  function RingBefore(w: int, h: int, x: int): int {
    if x == 0 then 0 else if x < w then h + 2 * (x - 1) else 2 * h + 2 * (w - 2)
  }

  /** The value of tile `(x, y)` of the bordered map: the map shifted by one inside, a fresh
      draw on the ring. */
  ghost function BorderedValue(g: Grid, samples: nat -> nat, w: nat, h: nat, lo: int, hi: int, x: int, y: int): int
    requires IsGrid(g, w, h) && lo <= hi && InBounds(w + 2, h + 2, x, y)
  {
    if 1 <= x < w + 1 && 1 <= y < h + 1 then g[x - 1][y - 1]
    else Draw(samples(RingIndex(w + 2, h + 2, x, y)), lo, hi)
  }

  /** Ring tiles lie in `[lo, hi)` (or equal `lo` when the range is empty), and consecutive
      ring tiles take consecutive samples, each sample used once. */
  lemma RingValuesInRange(g: Grid, samples: nat -> nat, w: nat, h: nat, lo: int, hi: int, x: int, y: int)
    requires IsGrid(g, w, h) && lo <= hi && InBounds(w + 2, h + 2, x, y)
    requires !(1 <= x < w + 1 && 1 <= y < h + 1)
    ensures lo < hi ==> lo <= BorderedValue(g, samples, w, h, lo, hi, x, y) < hi
    ensures lo == hi ==> BorderedValue(g, samples, w, h, lo, hi, x, y) == lo
    ensures 0 <= RingIndex(w + 2, h + 2, x, y) < RingBefore(w + 2, h + 2, w + 2)
  {
  }

  /** Distinct ring tiles take distinct samples. */
  lemma RingIndexInjective(w: int, h: int, x: int, y: int, x': int, y': int)
    requires w >= 2 && h >= 2 && InBounds(w, h, x, y) && InBounds(w, h, x', y')
    requires OnBorder(w, h, x, y) && OnBorder(w, h, x', y')
    requires RingIndex(w, h, x, y) == RingIndex(w, h, x', y')
    ensures x == x' && y == y'
  {
  }

  /** Ring tiles drawn once the scan of the bordered map reaches `(x, y)`: the columns
      before `x`, then the ring tiles of column `x` above `y`. */
  function RingDrawsBefore(w: int, h: int, x: int, y: int): int {
    RingBefore(w, h, x) +
    if x == 0 || x == w - 1 then y
    else (if y > 0 then 1 else 0) + (if y >= h then 1 else 0)
  }

  /** A ring tile takes the sample after those drawn before it, and finishing column `x`
      leaves the count where column `x + 1` starts. */
  lemma RingDraws(w: int, h: int, x: int, y: int)
    requires w >= 2 && h >= 2 && 0 <= x < w && 0 <= y < h
    ensures OnBorder(w, h, x, y) ==> RingIndex(w, h, x, y) == RingDrawsBefore(w, h, x, y)
    ensures RingDrawsBefore(w, h, x, y + 1) == RingDrawsBefore(w, h, x, y) + if OnBorder(w, h, x, y) then 1 else 0
    ensures RingDrawsBefore(w, h, x, h) == RingBefore(w, h, x + 1)
  {
  }

  /** A passage `c` of `ConnectClosestRooms`: between two distinct rooms of `rooms`, from an
      edge tile of the one to an edge tile of the other, at their squared distance. */
  predicate Drawn(c: Candidate, rooms: seq<Room>) {
    c.roomA in rooms && c.roomB in rooms && c.roomA != c.roomB &&
    c.tileA in c.roomA.edgeTiles && c.tileB in c.roomB.edgeTiles && c.distance == SqDistance(c.tileA, c.tileB)
  }

  /** Every passage of `log` is drawn between rooms of `rooms`. */
  predicate AllDrawn(log: seq<Candidate>, rooms: seq<Room>) {
    forall k :: 0 <= k < |log| ==> Drawn(log[k], rooms)
  }

  /** Two logs drawn from `rooms` make one. */
  lemma AllDrawnAppend(log: seq<Candidate>, more: seq<Candidate>, rooms: seq<Room>)
    requires AllDrawn(log, rooms) && AllDrawn(more, rooms)
    ensures AllDrawn(log + more, rooms)
  {
    forall k | 0 <= k < |log + more|
      ensures Drawn((log + more)[k], rooms)
    {
      if k >= |log| {
        assert (log + more)[k] == more[k - |log|];
      }
    }
  }

  /** A log drawn from `rooms` stays so when one more drawn passage joins it. */
  lemma AllDrawnSnoc(log: seq<Candidate>, c: Candidate, rooms: seq<Room>)
    requires AllDrawn(log, rooms) && Drawn(c, rooms)
    ensures AllDrawn(log + [c], rooms)
  {
    forall k | 0 <= k < |log + [c]|
      ensures Drawn((log + [c])[k], rooms)
    {
      if k == |log| {
        assert (log + [c])[k] == c;
      }
    }
  }


  /** Some passage of `log` clears `(x, y)`. */
  ghost predicate CarvedBy(log: seq<Candidate>, x: int, y: int) {
    exists k :: 0 <= k < |log| && Carved(log[k].tileA, log[k].tileB, PassageRadius, x, y)
  }

  /** The partners the passages of `log` give `r`, in order: each passage records each of
      its two rooms in the other's list. */
  function PartnersIn(log: seq<Candidate>, r: Room): seq<Room> {
    if log == [] then []
    else
      var c := log[|log| - 1];
      PartnersIn(log[..|log| - 1], r) + (if c.roomA == r then [c.roomB] else []) + (if c.roomB == r then [c.roomA] else [])
  }

  /** A log of one passage names its two rooms as each other's partners. */
  lemma OneLog(c: Candidate, r: Room)
    ensures PartnersIn([c], r) == (if c.roomA == r then [c.roomB] else []) + (if c.roomB == r then [c.roomA] else [])
  {
    assert [c][..0] == [];
  }

  /** A log of one passage clears what that passage clears. */
  lemma OneLogCarves(c: Candidate, x: int, y: int)
    ensures CarvedBy([c], x, y) <==> Carved(c.tileA, c.tileB, PassageRadius, x, y)
  {
    if Carved(c.tileA, c.tileB, PassageRadius, x, y) {
      assert [c][0] == c;
    }
  }

  /** The passages of two logs made one after the other clear what either clears. */
  lemma CarvedByAppend(log: seq<Candidate>, more: seq<Candidate>, x: int, y: int)
    ensures CarvedBy(log + more, x, y) <==> CarvedBy(log, x, y) || CarvedBy(more, x, y)
  {
    if CarvedBy(log, x, y) {
      var k :| 0 <= k < |log| && Carved(log[k].tileA, log[k].tileB, PassageRadius, x, y);
      assert (log + more)[k] == log[k];
    }
    if CarvedBy(log + more, x, y) {
      var k :| 0 <= k < |log + more| && Carved((log + more)[k].tileA, (log + more)[k].tileB, PassageRadius, x, y);
      if k >= |log| {
        assert more[k - |log|] == (log + more)[k];
      }
    }
    if CarvedBy(more, x, y) {
      var k :| 0 <= k < |more| && Carved(more[k].tileA, more[k].tileB, PassageRadius, x, y);
      assert (log + more)[|log| + k] == more[k];
    }
  }

  /** The partners two logs give a room are those of the first, then those of the second. */
  lemma {:induction false} PartnersAppend(log: seq<Candidate>, more: seq<Candidate>, r: Room)
    ensures PartnersIn(log + more, r) == PartnersIn(log, r) + PartnersIn(more, r)
  {
    if more != [] {
      var n := |more| - 1;
      assert (log + more)[..|log + more| - 1] == log + more[..n];
      assert (log + more)[|log + more| - 1] == more[n];
      PartnersAppend(log, more[..n], r);
    } else {
      assert log + more == log;
    }
  }

  /** From passages `links0` and marks `marks0` to `links` and `marks`, the passages of
      `log` were made and nothing else: every room records exactly its partners in `log`
      after its old ones, no mark is lost, and marks all reached from a room stay so. */
  ghost predicate RoomsJoin(links0: map<Room, seq<Room>>, marks0: map<Room, bool>,
                            links: map<Room, seq<Room>>, marks: map<Room, bool>, log: seq<Candidate>) {
    links.Keys == links0.Keys && marks.Keys == marks0.Keys &&
    (forall r :: r in links0 ==> links[r] == links0[r] + PartnersIn(log, r)) &&
    (forall r :: r in marks0 && marks0[r] ==> marks[r]) &&
    forall m :: m in links0 && RootedIn(links0, marks0, m) ==> RootedIn(links, marks, m)
  }

  /** Two runs of passage making, one after the other, make the passages of both logs. */
  lemma RoomsJoinCompose(links0: map<Room, seq<Room>>, marks0: map<Room, bool>, links1: map<Room, seq<Room>>,
                         marks1: map<Room, bool>, links2: map<Room, seq<Room>>, marks2: map<Room, bool>,
                         log1: seq<Candidate>, log2: seq<Candidate>)
    requires RoomsJoin(links0, marks0, links1, marks1, log1) && RoomsJoin(links1, marks1, links2, marks2, log2)
    ensures RoomsJoin(links0, marks0, links2, marks2, log1 + log2)
  {
    forall r | r in links0
      ensures links2[r] == links0[r] + PartnersIn(log1 + log2, r)
    {
      PartnersAppend(log1, log2, r);
    }
  }

  /** Of the first `n` rooms, every one with a partner has passages in `links`. */
  ghost predicate Partnered(links: map<Room, seq<Room>>, rooms: seq<Room>, n: int) {
    forall k :: 0 <= k < n && k < |rooms| && HasPartner(rooms, k) ==> rooms[k] in links && links[rooms[k]] != []
  }

  /** `ConnectRooms` for the pair `c` of two rooms of `allRooms` not yet joined, seen as a
      log of one passage; if either room was accessible, both are. */
  method JoinPair(c: Candidate, ghost allRooms: seq<Room>, ghost all: set<Room>)
    requires GraphOK(all) && Drawn(c, allRooms) && (forall r :: r in allRooms ==> r in all)
    requires !c.roomA.IsConnected(c.roomB)
    modifies all`connectedRooms, all`isAccessibleFromMainRoom
    ensures GraphOK(all)
    ensures RoomsJoin(old(Links(all)), old(Marks(all)), Links(all), Marks(all), [c])
    ensures old(c.roomA.isAccessibleFromMainRoom) || old(c.roomB.isAccessibleFromMainRoom) ==>
      c.roomA.isAccessibleFromMainRoom && c.roomB.isAccessibleFromMainRoom
  {
    Room.ConnectRooms(c.roomA, c.roomB, all);
    forall r | r in all
      ensures Links(all)[r] == old(Links(all))[r] + PartnersIn([c], r)
    {
      OneLog(c, r);
    }
    forall m | m in old(Links(all)) && RootedIn(old(Links(all)), old(Marks(all)), m)
      ensures RootedIn(Links(all), Marks(all), m)
    {
      assert old(Rooted(all, m));
    }
  }

  /** The state of the flood fill: `marked` is what has been dequeued (`tiles`) plus what
      is waiting (`queue`), with no tile twice and the start first, and every marked tile
      has value `v`. */
  ghost predicate Flood(g: Grid, w: int, h: int, v: int, start: Coord, marked: set<Coord>, tiles: seq<Coord>, queue: seq<Coord>)
    requires IsGrid(g, w, h)
  {
    (forall c :: c in marked <==> c in tiles || c in queue) &&
    (forall i, j :: 0 <= i < j < |tiles + queue| ==> (tiles + queue)[i] != (tiles + queue)[j]) &&
    (forall c :: c in marked ==> TileOf(g, w, h, v, c)) &&
    |tiles + queue| > 0 && (tiles + queue)[0] == start
  }

  /** The flood fill from `start` part way: the flood state holds, every marked tile is
      reached from `start`, the neighbours of value `v` of every dequeued tile are marked,
      and carrying on breadth-first from here dequeues the tiles of `FloodFrom`. */
  ghost predicate FloodFill(g: Grid, w: int, h: int, v: int, start: Coord, marked: set<Coord>, tiles: seq<Coord>, queue: seq<Coord>)
    requires IsGrid(g, w, h)
  {
    Flood(g, w, h, v, start, marked, tiles, queue) &&
    (forall c :: c in marked ==> Reachable(g, w, h, v, start, c)) &&
    (forall c, n :: c in tiles && Adjacent(c, n) && TileOf(g, w, h, v, n) ==> n in marked) &&
    Bfs(g, w, h, v, marked, queue, tiles) == FloodFrom(g, w, h, v, start)
  }

  /** The scan of `GetRegions` at position `(x, y)`: the regions found are those of
      `ScanRegions`, they are regions of value `v` and pairwise disjoint, `covered` is the
      tiles they hold, and these include every tile of value `v` the scan has passed. */
  ghost predicate RegionScan(g: Grid, w: int, h: int, v: int, x: int, y: int, regions: seq<seq<Coord>>, covered: set<Coord>)
    requires IsGrid(g, w, h)
  {
    Found(g, w, h, v, regions, covered) &&
    (forall i, j :: InBounds(w, h, i, j) && Before(i, j, x, y) && g[i][j] == v ==> Coord(i, j) in covered) &&
    0 <= x <= w && 0 <= y <= h && (x == w ==> y == 0) && regions == ScanRegions(g, w, h, v, x, y)
  }

  /** A tile of value `v` outside the regions found starts the next region: its flood fill. */
  lemma RegionFound(g: Grid, w: int, h: int, v: int, x: int, y: int, regions: seq<seq<Coord>>, covered: set<Coord>,
                    r: seq<Coord>)
    requires IsGrid(g, w, h) && RegionScan(g, w, h, v, x, y, regions, covered) && x < w && y < h
    requires Coord(x, y) !in covered && g[x][y] == v
    requires IsRegion(g, w, h, v, r) && r[0] == Coord(x, y) && r == FloodFrom(g, w, h, v, Coord(x, y))
    ensures RegionScan(g, w, h, v, x, y + 1, regions + [r], covered + set c | c in r)
  {
    var covered' := covered + set c | c in r;
    assert Found(g, w, h, v, regions + [r], covered') by {
      AddRegion(g, w, h, v, regions, r, covered);
    }
    assert ScanRegions(g, w, h, v, x, y + 1) == regions + [r] by {
      assert !InSome(regions, Coord(x, y));
    }
    assert forall i, j :: InBounds(w, h, i, j) && Before(i, j, x, y + 1) && g[i][j] == v ==> Coord(i, j) in covered' by {
      assert r[0] in covered';
      ScannedPast(g, w, h, v, x, y, covered, covered');
    }
  }

  /** A tile of another value, or one a region found holds, is passed over. */
  lemma RegionSkipped(g: Grid, w: int, h: int, v: int, x: int, y: int, regions: seq<seq<Coord>>, covered: set<Coord>)
    requires IsGrid(g, w, h) && RegionScan(g, w, h, v, x, y, regions, covered) && x < w && y < h
    requires Coord(x, y) in covered || g[x][y] != v
    ensures RegionScan(g, w, h, v, x, y + 1, regions, covered)
  {
    assert g[x][y] == v ==> InSome(regions, Coord(x, y));
    assert ScanRegions(g, w, h, v, x, y + 1) == regions;
    ScannedPast(g, w, h, v, x, y, covered, covered);
  }

  /** Covering the tile at `(x, y)` when it has value `v` moves the scan past it. */
  lemma ScannedPast(g: Grid, w: int, h: int, v: int, x: int, y: int, covered: set<Coord>, covered': set<Coord>)
    requires IsGrid(g, w, h) && covered <= covered'
    requires forall i, j :: InBounds(w, h, i, j) && Before(i, j, x, y) && g[i][j] == v ==> Coord(i, j) in covered
    requires InBounds(w, h, x, y) && g[x][y] == v ==> Coord(x, y) in covered'
    ensures forall i, j :: InBounds(w, h, i, j) && Before(i, j, x, y + 1) && g[i][j] == v ==> Coord(i, j) in covered'
  {
  }

  /** The end of column `x` is the top of column `x + 1`. */
  lemma RegionColumnDone(g: Grid, w: int, h: int, v: int, x: int, regions: seq<seq<Coord>>, covered: set<Coord>)
    requires IsGrid(g, w, h) && x < w && RegionScan(g, w, h, v, x, h, regions, covered)
    ensures RegionScan(g, w, h, v, x + 1, 0, regions, covered)
  {
  }

  /** Once every column is scanned, a tile lies in some region exactly when it has value `v`. */
  lemma RegionsDone(g: Grid, w: int, h: int, v: int, regions: seq<seq<Coord>>, covered: set<Coord>)
    requires IsGrid(g, w, h) && RegionScan(g, w, h, v, w, 0, regions, covered)
    ensures forall c :: InSome(regions, c) <==> TileOf(g, w, h, v, c)
  {
    forall c | TileOf(g, w, h, v, c)
      ensures InSome(regions, c)
    {
      assert Coord(c.tileX, c.tileY) in covered;
    }
  }

  /** The fill starts with the start tile marked and waiting. */
  lemma FloodStart(g: Grid, w: int, h: int, v: int, start: Coord)
    requires IsGrid(g, w, h) && TileOf(g, w, h, v, start)
    ensures FloodFill(g, w, h, v, start, {start}, [], [start])
  {
    ReachableSelf(g, w, h, v, start);
    assert [] + [start] == [start];
  }

  /** With nothing left waiting, the tiles dequeued are `FloodFrom` and form the region of
      the start tile. */
  lemma FloodDone(g: Grid, w: int, h: int, v: int, start: Coord, marked: set<Coord>, tiles: seq<Coord>)
    requires IsGrid(g, w, h) && FloodFill(g, w, h, v, start, marked, tiles, [])
    ensures IsRegion(g, w, h, v, tiles) && tiles[0] == start && tiles == FloodFrom(g, w, h, v, start)
  {
    assert tiles + [] == tiles;
  }

  /** `mapFlags` is nonzero exactly on the marked tiles. */
  ghost predicate Flags(mapFlags: array2<int>, w: int, h: int, marked: set<Coord>)
    reads mapFlags
  {
    mapFlags.Length0 == w && mapFlags.Length1 == h &&
    forall x, y :: 0 <= x < w && 0 <= y < h ==> (mapFlags[x, y] == 0 <==> Coord(x, y) !in marked)
  }

  /** Neighbour `n`, if the scan at `(x, y)` has passed it and it has value `v`, is marked. */
  ghost predicate Scanned(g: Grid, w: int, h: int, v: int, marked: set<Coord>, n: Coord, x: int, y: int)
    requires IsGrid(g, w, h)
  {
    Before(n.tileX, n.tileY, x, y) && TileOf(g, w, h, v, n) ==> n in marked
  }

  /** The scan at `(x, y)` has passed each of the four orthogonal neighbours it has reached. */
  ghost predicate ScannedNeighbours(g: Grid, w: int, h: int, v: int, marked: set<Coord>, tile: Coord, x: int, y: int)
    requires IsGrid(g, w, h)
  {
    Scanned(g, w, h, v, marked, Coord(tile.tileX - 1, tile.tileY), x, y) &&
    Scanned(g, w, h, v, marked, Coord(tile.tileX + 1, tile.tileY), x, y) &&
    Scanned(g, w, h, v, marked, Coord(tile.tileX, tile.tileY - 1), x, y) &&
    Scanned(g, w, h, v, marked, Coord(tile.tileX, tile.tileY + 1), x, y)
  }

  /** Once the scan has passed the whole 3x3 block, every orthogonal neighbour of value `v`
      is marked. */
  lemma ScannedAllNeighbours(g: Grid, w: int, h: int, v: int, marked: set<Coord>, tile: Coord)
    requires IsGrid(g, w, h)
    requires ScannedNeighbours(g, w, h, v, marked, tile, tile.tileX + 2, tile.tileY - 1)
    ensures forall n :: Adjacent(tile, n) && TileOf(g, w, h, v, n) ==> n in marked
  {
    forall n | Adjacent(tile, n) && TileOf(g, w, h, v, n)
      ensures n in marked
    {
      NeighboursAreAdjacent(tile, n);
    }
  }

  /** The state of the neighbour scan of `tile` once the columns left of `x` are probed:
      the flood state holds, the probes of those columns against `base` have been appended
      to `queue0`, each new mark is an adjacent tile left of column `x`, and the neighbours
      passed are marked. */
  ghost predicate BlockScan(g: Grid, w: int, h: int, v: int, start: Coord, tiles: seq<Coord>, tile: Coord, x: int,
                            queue0: seq<Coord>, base: set<Coord>, queue: seq<Coord>, marked: set<Coord>)
    requires IsGrid(g, w, h)
  {
    Flood(g, w, h, v, start, marked, tiles, queue) &&
    queue == queue0 + BlockProbes(g, w, h, v, base, tile, x) &&
    base <= marked && (marked == base ==> queue == queue0) &&
    (forall c :: c in marked && c !in base ==> Adjacent(tile, c) && c.tileX < x) &&
    ScannedNeighbours(g, w, h, v, marked, tile, x, tile.tileY - 1)
  }

  /** The state of the neighbour scan part way down column `x`, at row `y`: as `BlockScan`,
      for the probes of the column above row `y` against `base`, appended to `queue0`. */
  ghost predicate ColumnScan(g: Grid, w: int, h: int, v: int, start: Coord, tiles: seq<Coord>, tile: Coord,
                             base: set<Coord>, x: int, y: int,
                             queue0: seq<Coord>, marked0: set<Coord>, queue: seq<Coord>, marked: set<Coord>)
    requires IsGrid(g, w, h)
  {
    Flood(g, w, h, v, start, marked, tiles, queue) &&
    queue == queue0 + ColumnProbes(g, w, h, v, base, tile, x, y) &&
    marked0 <= marked && (marked == marked0 ==> queue == queue0) &&
    (forall c :: c in marked && c !in marked0 ==> Adjacent(tile, c) && c.tileX == x && c.tileY < y) &&
    ScannedNeighbours(g, w, h, v, marked, tile, x, y)
  }

  /** Before the first column nothing is probed. */
  lemma BlockStart(g: Grid, w: int, h: int, v: int, start: Coord, tiles: seq<Coord>, tile: Coord,
                   queue: seq<Coord>, marked: set<Coord>)
    requires IsGrid(g, w, h) && Flood(g, w, h, v, start, marked, tiles, queue)
    ensures BlockScan(g, w, h, v, start, tiles, tile, tile.tileX - 1, queue, marked, queue, marked)
  {
    assert queue + [] == queue;
  }

  /** A column starts where the columns before it ended. */
  lemma ColumnStart(g: Grid, w: int, h: int, v: int, start: Coord, tiles: seq<Coord>, tile: Coord, x: int,
                    queue0: seq<Coord>, base: set<Coord>, queue: seq<Coord>, marked: set<Coord>)
    requires IsGrid(g, w, h) && BlockScan(g, w, h, v, start, tiles, tile, x, queue0, base, queue, marked)
    ensures ColumnScan(g, w, h, v, start, tiles, tile, base, x, tile.tileY - 1, queue, marked, queue, marked)
    ensures base <= marked && forall c :: c in marked && c !in base ==> c.tileX < x
  {
    assert queue + [] == queue;
  }

  /** Part way down column `x`, position `(x, y)` is marked exactly when `base` marks it. */
  lemma ColumnProbeReady(g: Grid, w: int, h: int, v: int, start: Coord, tiles: seq<Coord>, tile: Coord, x: int, y: int,
                         base: set<Coord>, queue: seq<Coord>, marked: set<Coord>, queue': seq<Coord>, marked': set<Coord>)
    requires IsGrid(g, w, h) && base <= marked && (forall c :: c in marked && c !in base ==> c.tileX < x)
    requires ColumnScan(g, w, h, v, start, tiles, tile, base, x, y, queue, marked, queue', marked')
    ensures Coord(x, y) in marked' <==> Coord(x, y) in base
  {
  }

  /** Probing position `(x, y)` moves the column scan on to row `y + 1`. */
  lemma ColumnProbeDone(g: Grid, w: int, h: int, v: int, start: Coord, tiles: seq<Coord>, tile: Coord,
                        base: set<Coord>, x: int, y: int, queue0: seq<Coord>, marked0: set<Coord>,
                        queue: seq<Coord>, marked: set<Coord>, queue': seq<Coord>, marked': set<Coord>)
    requires IsGrid(g, w, h) && tile.tileY - 1 <= y
    requires ColumnScan(g, w, h, v, start, tiles, tile, base, x, y, queue0, marked0, queue, marked)
    requires Flood(g, w, h, v, start, marked', tiles, queue')
    requires queue' == queue + Probe(g, w, h, v, base, tile, x, y)
    requires marked <= marked' && (marked' == marked ==> queue' == queue)
    requires forall c :: c in marked' && c !in marked ==> c == Coord(x, y) && Adjacent(tile, c)
    requires (x == tile.tileX || y == tile.tileY) && TileOf(g, w, h, v, Coord(x, y)) ==> Coord(x, y) in marked'
    ensures ColumnScan(g, w, h, v, start, tiles, tile, base, x, y + 1, queue0, marked0, queue', marked')
  {
    ColumnStep(g, w, h, v, base, tile, x, y, queue0);
    ScannedStep(g, w, h, v, marked, marked', tile, x, y);
  }

  /** A column probed to its end moves the block scan on to column `x + 1`. */
  lemma ColumnDone(g: Grid, w: int, h: int, v: int, start: Coord, tiles: seq<Coord>, tile: Coord, x: int,
                   queue0: seq<Coord>, base: set<Coord>, queue: seq<Coord>, marked: set<Coord>,
                   queue': seq<Coord>, marked': set<Coord>)
    requires IsGrid(g, w, h) && tile.tileX - 1 <= x
    requires BlockScan(g, w, h, v, start, tiles, tile, x, queue0, base, queue, marked)
    requires ColumnScan(g, w, h, v, start, tiles, tile, base, x, tile.tileY + 2, queue, marked, queue', marked')
    ensures BlockScan(g, w, h, v, start, tiles, tile, x + 1, queue0, base, queue', marked')
  {
    BlockStep(g, w, h, v, base, tile, x, queue0);
    ScannedColumn(g, w, h, v, marked', tile, x);
  }

  /** The block scan over, the queue has grown by `Expand` and the marks by its tiles, and
      every orthogonal neighbour of value `v` is marked. */
  lemma BlockDone(g: Grid, w: int, h: int, v: int, start: Coord, tiles: seq<Coord>, tile: Coord,
                  queue: seq<Coord>, marked: set<Coord>, queue': seq<Coord>, marked': set<Coord>)
    requires IsGrid(g, w, h) && Flood(g, w, h, v, start, marked, tiles, queue)
    requires BlockScan(g, w, h, v, start, tiles, tile, tile.tileX + 2, queue, marked, queue', marked')
    ensures queue' == queue + Expand(g, w, h, v, marked, tile)
    ensures marked' == marked + TileSet(Expand(g, w, h, v, marked, tile))
    ensures marked <= marked' && (marked' == marked ==> queue' == queue)
    ensures forall c :: c in marked' && c !in marked ==> Adjacent(tile, c)
    ensures forall n :: Adjacent(tile, n) && TileOf(g, w, h, v, n) ==> n in marked'
  {
    ScannedAllNeighbours(g, w, h, v, marked', tile);
    FloodMarks(g, w, h, v, start, marked, marked', tiles, queue, Expand(g, w, h, v, marked, tile));
  }

  /** One more position of a column scan appends its probe to the queue. */
  lemma ColumnStep(g: Grid, w: int, h: int, v: int, base: set<Coord>, t: Coord, x: int, y: int, queue: seq<Coord>)
    requires IsGrid(g, w, h) && t.tileY - 1 <= y
    ensures queue + ColumnProbes(g, w, h, v, base, t, x, y + 1)
         == (queue + ColumnProbes(g, w, h, v, base, t, x, y)) + Probe(g, w, h, v, base, t, x, y)
  {
  }

  /** One more column of the block scan appends its probes to the queue. */
  lemma BlockStep(g: Grid, w: int, h: int, v: int, base: set<Coord>, t: Coord, x: int, queue: seq<Coord>)
    requires IsGrid(g, w, h) && t.tileX - 1 <= x
    ensures queue + BlockProbes(g, w, h, v, base, t, x + 1)
         == (queue + BlockProbes(g, w, h, v, base, t, x)) + ColumnProbes(g, w, h, v, base, t, x, t.tileY + 2)
  {
  }

  /** Probing position `(x, y)` of the block around `tile` moves the scan past it. */
  lemma ScannedStep(g: Grid, w: int, h: int, v: int, marked: set<Coord>, marked': set<Coord>, tile: Coord, x: int, y: int)
    requires IsGrid(g, w, h) && ScannedNeighbours(g, w, h, v, marked, tile, x, y) && marked <= marked'
    requires (x == tile.tileX || y == tile.tileY) && TileOf(g, w, h, v, Coord(x, y)) ==> Coord(x, y) in marked'
    ensures ScannedNeighbours(g, w, h, v, marked', tile, x, y + 1)
  {
  }

  /** Once column `x` of the block is probed, the scan moves on to the top of column `x + 1`. */
  lemma ScannedColumn(g: Grid, w: int, h: int, v: int, marked: set<Coord>, tile: Coord, x: int)
    requires IsGrid(g, w, h) && ScannedNeighbours(g, w, h, v, marked, tile, x, tile.tileY + 2)
    ensures ScannedNeighbours(g, w, h, v, marked, tile, x + 1, tile.tileY - 1)
  {
  }

  /** The marks of a flood state are what it has dequeued and what is waiting, so a queue
      grown by `more` has grown the marks by exactly `more`. */
  lemma FloodMarks(g: Grid, w: int, h: int, v: int, start: Coord, marked: set<Coord>, marked': set<Coord>,
                   tiles: seq<Coord>, queue: seq<Coord>, more: seq<Coord>)
    requires IsGrid(g, w, h) && Flood(g, w, h, v, start, marked, tiles, queue)
    requires Flood(g, w, h, v, start, marked', tiles, queue + more)
    ensures marked' == marked + TileSet(more)
  {
  }

  /** Dequeuing moves the front of the queue to the end of the tiles. */
  lemma FloodDequeue(g: Grid, w: int, h: int, v: int, start: Coord, marked: set<Coord>, tiles: seq<Coord>, queue: seq<Coord>)
    requires IsGrid(g, w, h) && Flood(g, w, h, v, start, marked, tiles, queue) && |queue| > 0
    ensures Flood(g, w, h, v, start, marked, tiles + [queue[0]], queue[1..])
  {
    assert tiles + queue == (tiles + [queue[0]]) + queue[1..];
  }

  /** Enqueuing an unmarked neighbour of a dequeued tile, of the same value, keeps the state. */
  lemma FloodEnqueue(g: Grid, w: int, h: int, v: int, start: Coord, marked: set<Coord>, tiles: seq<Coord>, queue: seq<Coord>,
                     tile: Coord, n: Coord)
    requires IsGrid(g, w, h) && Flood(g, w, h, v, start, marked, tiles, queue)
    requires tile in marked && n !in marked && Adjacent(tile, n) && TileOf(g, w, h, v, n)
    ensures Flood(g, w, h, v, start, marked + {n}, tiles, queue + [n])
  {
    assert tiles + (queue + [n]) == (tiles + queue) + [n];
  }

  /** `rooms` are the rooms made from the regions `large`, in order, each its own, none yet
      joined to another, and each with an edge tile when `edges` holds. */
  predicate RoomsOf(rooms: seq<Room>, large: seq<seq<Coord>>, edges: bool)
    reads set r | r in rooms
  {
    |rooms| == |large| && NoDuplicates(rooms) &&
    forall i :: 0 <= i < |rooms| ==>
      rooms[i].tiles == large[i] && rooms[i].roomSize == |large[i]| && Unjoined(rooms[i]) && (edges ==> rooms[i].edgeTiles != [])
  }

  /** A new room for one more large region extends the rooms made so far. */
  lemma RoomsOfAppend(rooms: seq<Room>, large: seq<seq<Coord>>, edges: bool, room: Room)
    requires RoomsOf(rooms, large, edges) && room !in rooms
    requires room.roomSize == |room.tiles| && Unjoined(room) && (edges ==> room.edgeTiles != [])
    ensures RoomsOf(rooms + [room], large + [room.tiles], edges)
  {
    var longer := rooms + [room];
    forall i, j | 0 <= i < j < |longer|
      ensures longer[i] != longer[j]
    {
      if j < |rooms| {
        assert longer[i] == rooms[i] && longer[j] == rooms[j];
      }
    }
  }

  /** The generator. `hash` stands for the foreign step from a seed string to the stream of
      raw samples of `new System.Random(seed.GetHashCode())`. */
  class MapGenerator {
    const width: nat
    const height: nat
    const maxValue: int
    const minValue: int
    const hash: string -> (nat -> nat)
    var seed: string
    var randomFillPercent: int
    var tileMap: array2<int>
    /** The contents of `tileMap`, as a value. */
    ghost var cells: Grid

    /** The map has the generator's dimensions and `cells` holds its contents. */
    ghost predicate Valid()
      reads this, tileMap
    {
      tileMap.Length0 == width && tileMap.Length1 == height && Mirrors(tileMap, cells)
    }

    /** `MapGenerator(width, height, maxValue, minValue)`. No map exists until `GenerateMap`. */
    constructor (width: nat, height: nat, maxValue: int, minValue: int, hash: string -> (nat -> nat))
      ensures this.width == width && this.height == height
      ensures this.maxValue == maxValue && this.minValue == minValue && this.hash == hash
    {
      this.width := width;
      this.height := height;
      this.maxValue := maxValue;
      this.minValue := minValue;
      this.hash := hash;
      seed := "";
      randomFillPercent := 0;
      tileMap := new int[0, 0];
      cells := [];
    }

    /** `GenerateMap(level, randomFillPercent)`: the level's seed is chosen, the map randomly
        filled and smoothed five times, then `ProcessMap` prunes it and joins its rooms, and
        the result is the map inside a ring of fresh draws. `stages` records what
        `ProcessMap` made of `smoothed`, and `rooms` are its rooms. */
    method GenerateMap(level: int, percent: int) returns (result: Result<array2<int>>, ghost filled: Grid,
                                                          ghost smoothed: Grid, ghost rooms: seq<Room>, ghost stages: Stages)
      modifies this
      ensures Valid() && IsGrid(filled, width, height) && IsGrid(smoothed, width, height)
      ensures !(0 <= level < |Seeds|) ==> result == Err(LevelOutOfRange) && rooms == []
      ensures 0 <= level < |Seeds| ==>
        seed == Seeds[level] && randomFillPercent == percent &&
        (forall x, y :: InBounds(width, height, x, y) ==> filled[x][y] == FillValue(hash(seed), width, height, percent, x, y)) &&
        smoothed == SmoothTimes(filled, width, height, SmoothingIterations)
      ensures 0 <= level < |Seeds| ==> PrunedFrom(smoothed, stages)
      ensures 0 <= level < |Seeds| && stages.error.Some? ==> result == Err(stages.error.value) && rooms == []
      ensures 0 <= level < |Seeds| && stages.error.None? ==> JoinedFrom(rooms, stages)
      ensures minValue > maxValue ==> result.Err?
      ensures result.Ok? <==> 0 <= level < |Seeds| && stages.error.None? && minValue <= maxValue
      ensures result == Err(LevelOutOfRange) <==> !(0 <= level < |Seeds|)
      ensures result.Err? ==> result.error == LevelOutOfRange || result.error == MinAboveMax || result.error == RoomOnMapEdge
      ensures result == Err(MinAboveMax) ==> minValue > maxValue
      ensures result.Ok? ==>
        var bordered := result.value;
        fresh(bordered) && bordered.Length0 == width + 2 * BorderSize && bordered.Length1 == height + 2 * BorderSize &&
        forall x, y :: 0 <= x < bordered.Length0 && 0 <= y < bordered.Length1 ==>
          bordered[x, y] == BorderedValue(cells, hash(seed), width, height, minValue, maxValue, x, y)
      ensures forall r :: r in rooms ==> fresh(r)
      ensures result.Ok? && 0 <= minValue <= 1 && minValue <= maxValue <= 2 ==>
        forall i :: 0 <= i < |rooms| ==>
          rooms[i].edgeTiles != [] && rooms[i].isAccessibleFromMainRoom && Reaches(Links(RoomSet(rooms)), rooms[0], rooms[i])
    {
      tileMap := new int[width, height]((_, _) => 0);
      cells := Zeros(width, height);
      filled, smoothed, rooms := cells, cells, [];
      stages := Stages(None, [], cells, [], cells, [], []);
      if !(0 <= level < |Seeds|) {
        return Err(LevelOutOfRange), filled, smoothed, rooms, stages;
      }
      seed := Seeds[level];
      randomFillPercent := percent;
      filled := FillAndSmooth();
      smoothed := cells;
      result, rooms, stages := ProcessAndBorder();
    }

    /** The last stages of `GenerateMap`: `ProcessMap`, then, unless it failed, the map
        inside a ring of fresh draws. `stages` records what `ProcessMap` made of the map. */
    method ProcessAndBorder() returns (result: Result<array2<int>>, rooms: seq<Room>, ghost stages: Stages)
      requires Valid()
      modifies this`cells, tileMap
      ensures Valid() && PrunedFrom(old(cells), stages)
      ensures stages.error.Some? ==> result == Err(stages.error.value) && rooms == []
      ensures stages.error.None? ==> JoinedFrom(rooms, stages)
      ensures result.Err? ==> result.error == MinAboveMax || result.error == RoomOnMapEdge
      ensures minValue > maxValue ==> result.Err?
      ensures result.Ok? <==> stages.error.None? && minValue <= maxValue
      ensures result == Err(MinAboveMax) ==> minValue > maxValue
      ensures result.Ok? ==>
        var bordered := result.value;
        fresh(bordered) && bordered.Length0 == width + 2 * BorderSize && bordered.Length1 == height + 2 * BorderSize &&
        forall x, y :: 0 <= x < bordered.Length0 && 0 <= y < bordered.Length1 ==>
          bordered[x, y] == BorderedValue(cells, hash(seed), width, height, minValue, maxValue, x, y)
      ensures forall r :: r in rooms ==> fresh(r)
      ensures result.Ok? && Binary(old(cells), width, height) && 0 <= minValue <= 1 && minValue <= maxValue <= 2 ==>
        forall i :: 0 <= i < |rooms| ==>
          rooms[i].edgeTiles != [] && rooms[i].isAccessibleFromMainRoom && Reaches(Links(RoomSet(rooms)), rooms[0], rooms[i])
    {
      var error, joined;
      ghost var walls, walled, floors, pruned, survivors, passages;
      error, joined, walls, walled, floors, pruned, survivors, passages := ProcessMap();
      rooms := joined;
      stages := Stages(error, walls, walled, floors, pruned, survivors, passages);
      if error.Some? {
        return Err(error.value), rooms, stages;
      }
      label processed:
      result := BorderMap();
      assert unchanged@processed(this, RoomSet(rooms));
    }

    /** The first stage of `GenerateMap`: `RandomFillMap`, then `SmoothMap` five times. The
        map stays made of floors and walls with walls all round its border. */
    method FillAndSmooth() returns (ghost filled: Grid)
      requires Valid()
      modifies this`cells, tileMap
      ensures Valid() && IsGrid(filled, width, height)
      ensures forall x, y :: InBounds(width, height, x, y) ==>
        filled[x][y] == FillValue(hash(seed), width, height, randomFillPercent, x, y)
      ensures cells == SmoothTimes(filled, width, height, SmoothingIterations)
      ensures Binary(cells, width, height) && BorderWalls(cells, width, height)
    {
      RandomFillMap();
      filled := cells;
      for i := 0 to SmoothingIterations
        invariant Valid() && cells == SmoothTimes(filled, width, height, i)
      {
        SmoothMap();
      }
      SmoothTimesKeepsBinaryBorder(filled, width, height, SmoothingIterations);
    }

    /** The bordered map of `GenerateMap`: the map shifted one tile inwards, inside a ring whose
        tiles, in scan order, take the draws of a generator freshly seeded with the seed. */
    method BorderMap() returns (result: Result<array2<int>>)
      requires Valid()
      ensures minValue > maxValue ==> result == Err(MinAboveMax)
      ensures minValue <= maxValue ==> result.Ok?
      ensures result.Ok? ==>
        var bordered := result.value;
        fresh(bordered) && bordered.Length0 == width + 2 * BorderSize && bordered.Length1 == height + 2 * BorderSize &&
        forall x, y :: 0 <= x < bordered.Length0 && 0 <= y < bordered.Length1 ==>
          bordered[x, y] == BorderedValue(cells, hash(seed), width, height, minValue, maxValue, x, y)
    {
      if minValue > maxValue {
        return Err(MinAboveMax);
      }
      var w, h := width + 2 * BorderSize, height + 2 * BorderSize;
      var bordered := new int[w, h];
      var pseudoRandom := new Random(hash(seed));
      for x := 0 to w
        invariant pseudoRandom.samples == hash(seed) && pseudoRandom.drawn == RingBefore(w, h, x)
        invariant forall i, j :: 0 <= i < x && 0 <= j < h ==>
          bordered[i, j] == BorderedValue(cells, hash(seed), width, height, minValue, maxValue, i, j)
      {
        for y := 0 to h
          invariant pseudoRandom.samples == hash(seed) && pseudoRandom.drawn == RingDrawsBefore(w, h, x, y)
          invariant forall i, j :: 0 <= i < w && 0 <= j < h && Before(i, j, x, y) ==>
            bordered[i, j] == BorderedValue(cells, hash(seed), width, height, minValue, maxValue, i, j)
        {
          RingDraws(w, h, x, y);
          if x >= BorderSize && x < width + BorderSize && y >= BorderSize && y < height + BorderSize {
            bordered[x, y] := tileMap[x - BorderSize, y - BorderSize];
          } else {
            bordered[x, y] := pseudoRandom.Next(minValue, maxValue);
          }
        }
      }
      return Ok(bordered);
    }

    /** `IsInMapRange`. */
    predicate IsInMapRange(x: int, y: int) {
      x >= 0 && x < width && y >= 0 && y < height
    }

    /** On a valid generator, `IsInMapRange` holds exactly for the positions that index the map. */
    lemma InMapRangeIndexesMap(x: int, y: int)
      requires Valid()
      ensures IsInMapRange(x, y) <==> 0 <= x < tileMap.Length0 && 0 <= y < tileMap.Length1
      ensures IsInMapRange(x, y) <==> InBounds(|cells|, height, x, y)
    {
    }

    /** `RandomFillMap`: border walls, and interior tiles set from a generator freshly seeded
        with the level's seed. */
    method RandomFillMap()
      requires Valid()
      modifies this`cells, tileMap
      ensures Valid()
      ensures forall x, y :: InBounds(width, height, x, y) ==>
        cells[x][y] == FillValue(hash(seed), width, height, randomFillPercent, x, y)
      ensures Binary(cells, width, height) && BorderWalls(cells, width, height)
    {
      var pseudoRandom := new Random(hash(seed));
      var w, h := width, height;
      for x := 0 to w
        invariant Valid() && pseudoRandom.samples == hash(seed)
        invariant pseudoRandom.drawn == DrawsBefore(w, h, x, 0)
        invariant forall i, j :: InBounds(w, h, i, j) && i < x ==>
          cells[i][j] == FillValue(hash(seed), w, h, randomFillPercent, i, j)
      {
        for y := 0 to h
          invariant Valid() && pseudoRandom.samples == hash(seed)
          invariant pseudoRandom.drawn == DrawsBefore(w, h, x, y)
          invariant forall i, j :: InBounds(w, h, i, j) && Before(i, j, x, y) ==>
            cells[i][j] == FillValue(hash(seed), w, h, randomFillPercent, i, j)
        {
          if x == 0 || x == w - 1 || y == 0 || y == h - 1 {
            tileMap[x, y] := 1;
            cells := Put(cells, w, h, x, y, 1);
          } else {
            var v := pseudoRandom.Next(0, 100);
            var wall := if v < randomFillPercent then 1 else 0;
            tileMap[x, y] := wall;
            cells := Put(cells, w, h, x, y, wall);
          }
        }
        NextColumnDraws(w, h, x);
      }
      FillIsBinaryWithBorder(cells, hash(seed), w, h, randomFillPercent);
    }

    /** `GetSurroundingWallCount`: the number of walls around the tile, off-map positions
        counting as walls. */
    method GetSurroundingWallCount(gridX: int, gridY: int) returns (wallCount: int)
      requires Valid()
      ensures wallCount == WallCount(cells, width, height, gridX, gridY)
    {
      wallCount := 0;
      for neighbourX := gridX - 1 to gridX + 2
        invariant wallCount == BlockWalls(cells, width, height, gridX, gridY, neighbourX - gridX + 1)
      {
        for neighbourY := gridY - 1 to gridY + 2
          invariant wallCount == BlockWalls(cells, width, height, gridX, gridY, neighbourX - gridX + 1) +
            ColumnWalls(cells, width, height, gridX, gridY, neighbourX, neighbourY - gridY + 1)
        {
          if IsInMapRange(neighbourX, neighbourY) {
            if neighbourX != gridX || neighbourY != gridY {
              wallCount := wallCount + tileMap[neighbourX, neighbourY];
            }
          } else {
            wallCount := wallCount + 1;
          }
        }
      }
    }

    /** `SmoothMap`: one in-place pass of the smoothing rule in scan order. */
    method SmoothMap()
      requires Valid()
      modifies this`cells, tileMap
      ensures Valid()
      ensures cells == SmoothPass(old(cells), width, height)
    {
      var w, h := width, height;
      for x := 0 to w
        invariant Valid() && cells == SweepTo(old(cells), w, h, x, 0)
      {
        for y := 0 to h
          invariant Valid() && cells == SweepTo(old(cells), w, h, x, y)
        {
          var neighbourWallTiles := GetSurroundingWallCount(x, y);
          ghost var before := cells;
          if neighbourWallTiles > 4 {
            tileMap[x, y] := 1;
            cells := Put(cells, w, h, x, y, 1);
          } else if neighbourWallTiles < 4 {
            tileMap[x, y] := 0;
            cells := Put(cells, w, h, x, y, 0);
          } else {
            assert before[x][y := before[x][y]] == before[x];
            assert Put(before, w, h, x, y, before[x][y]) == before;
          }
        }
      }
    }

    /** `DrawCircle(c, r)`: clears every tile of the disc around `c` that lies on the map. */
    method DrawCircle(c: Coord, r: int)
      requires Valid()
      modifies this`cells, tileMap
      ensures Valid()
      ensures forall x, y :: InBounds(width, height, x, y) ==>
        cells[x][y] == if InDisc(c, r, x, y) then 0 else old(cells)[x][y]
    {
      var w, h := width, height;
      var x := -r;
      while x <= r
        invariant Valid() && -r <= x && (r >= 0 ==> x <= r + 1)
        invariant forall i, j :: InBounds(w, h, i, j) ==>
          cells[i][j] == if InDisc(c, r, i, j) && i - c.tileX < x then 0 else old(cells)[i][j]
        decreases r - x
      {
        ClearDiscColumn(c, r, x);
        x := x + 1;
      }
    }

    /** Column `x` of `DrawCircle(c, r)`: the tiles of the disc in that column that lie on
        the map are cleared. */
    method ClearDiscColumn(c: Coord, r: int, x: int)
      requires Valid() && -r <= x <= r
      modifies this`cells, tileMap
      ensures Valid()
      ensures forall i, j :: InBounds(width, height, i, j) ==>
        cells[i][j] == if InDisc(c, r, i, j) && i - c.tileX == x then 0 else old(cells)[i][j]
    {
      var w, h := width, height;
      var y := -r;
      while y <= r
        invariant Valid() && -r <= y <= r + 1
        invariant forall i, j :: InBounds(w, h, i, j) ==>
          cells[i][j] == if InDisc(c, r, i, j) && i - c.tileX == x && j - c.tileY < y then 0 else old(cells)[i][j]
        decreases r - y
      {
        assert InDisc(c, r, c.tileX + x, c.tileY + y) <==> x * x + y * y <= r * r;
        if x * x + y * y <= r * r {
          var drawX := c.tileX + x;
          var drawY := c.tileY + y;
          if IsInMapRange(drawX, drawY) {
            tileMap[drawX, drawY] := 0;
            cells := Put(cells, w, h, drawX, drawY, 0);
          }
        }
        y := y + 1;
      }
    }

    /** The refill loop of `ProcessMap` for one small region: each tile in turn gets the
        next draw in `[minValue, maxValue)`. `System.Random.Next` throws on the first tile
        when `minValue > maxValue`; then nothing is written and the result is false. */
    method RefillRegion(region: seq<Coord>, pseudoRandom: Random) returns (ok: bool)
      requires Valid() && OnMap(width, height, region) && region != []
      modifies this`cells, tileMap, pseudoRandom
      ensures Valid()
      ensures ok <==> minValue <= maxValue
      ensures ok ==> pseudoRandom.drawn == old(pseudoRandom.drawn) + |region|
      ensures ok ==> cells == Refill(old(cells), width, height, region, pseudoRandom.samples, old(pseudoRandom.drawn), minValue, maxValue)
      ensures !ok ==> cells == old(cells) && pseudoRandom.drawn == old(pseudoRandom.drawn)
    {
      if minValue > maxValue {
        return false;
      }
      var w, h := width, height;
      for i := 0 to |region|
        invariant Valid() && pseudoRandom.drawn == old(pseudoRandom.drawn) + i
        invariant cells == Refill(old(cells), w, h, region[..i], pseudoRandom.samples, old(pseudoRandom.drawn), minValue, maxValue)
      {
        var tile := region[i];
        var v := pseudoRandom.Next(minValue, maxValue);
        tileMap[tile.tileX, tile.tileY] := v;
        cells := Put(cells, w, h, tile.tileX, tile.tileY, v);
        assert region[..i + 1][..i] == region[..i];
      }
      assert region[..|region|] == region;
      return true;
    }

    /** The wall loop of `ProcessMap`: every wall region smaller than `WallThresholdSize`
        is refilled, in order, from one generator. Fails, as the first draw would, when a
        region must be refilled and `minValue > maxValue`. */
    method PruneWalls(regions: seq<seq<Coord>>, pseudoRandom: Random) returns (ok: bool)
      requires Valid() && forall k :: 0 <= k < |regions| ==> OnMap(width, height, regions[k]) && regions[k] != []
      modifies this`cells, tileMap, pseudoRandom
      ensures Valid()
      ensures ok <==> minValue <= maxValue || forall k :: 0 <= k < |regions| ==> |regions[k]| >= WallThresholdSize
      ensures ok && minValue <= maxValue ==>
        var p := Prune(old(cells), width, height, regions, WallThresholdSize, pseudoRandom.samples, old(pseudoRandom.drawn), minValue, maxValue);
        cells == p.grid && pseudoRandom.drawn == p.used
      ensures minValue > maxValue ==> cells == old(cells) && pseudoRandom.drawn == old(pseudoRandom.drawn)
    {
      var w, h := width, height;
      for k := 0 to |regions|
        invariant Valid()
        invariant forall j :: 0 <= j < k ==> minValue <= maxValue || |regions[j]| >= WallThresholdSize
        invariant minValue <= maxValue ==>
          var p := Prune(old(cells), w, h, regions[..k], WallThresholdSize, pseudoRandom.samples, old(pseudoRandom.drawn), minValue, maxValue);
          cells == p.grid && pseudoRandom.drawn == p.used
        invariant minValue > maxValue ==> cells == old(cells) && pseudoRandom.drawn == old(pseudoRandom.drawn)
      {
        assert regions[..k + 1][..k] == regions[..k];
        var wallRegion := regions[k];
        if |wallRegion| < WallThresholdSize {
          var refilled := RefillRegion(wallRegion, pseudoRandom);
          if !refilled {
            return false;
          }
        }
      }
      assert regions[..|regions|] == regions;
      return true;
    }

    /** The floor loop of `ProcessMap` after `k` regions, on the map `g` it started from and
        with the generator at `from`: the regions met so far are past the checks, and the map
        and the generator are where pruning them leaves them. */
    ghost predicate FloorsPruned(g: Grid, regions: seq<seq<Coord>>, k: int, pseudoRandom: Random, from: nat)
      reads this, pseudoRandom
      requires IsGrid(g, width, height) && 0 <= k <= |regions|
      requires forall j :: 0 <= j < |regions| ==> OnMap(width, height, regions[j])
    {
      (forall j :: 0 <= j < k ==> minValue <= maxValue || |regions[j]| >= RoomThresholdSize) &&
      (forall j :: 0 <= j < k && |regions[j]| >= RoomThresholdSize ==> AllInterior(width, height, regions[j])) &&
      (minValue <= maxValue ==>
        var p := Prune(g, width, height, regions[..k], RoomThresholdSize, pseudoRandom.samples, from, minValue, maxValue);
        cells == p.grid && pseudoRandom.drawn == p.used) &&
      (minValue > maxValue ==> cells == g)
    }

    /** The `Room` made from a large floor region `k` that lies inside the border, probed on
        the map as pruning the regions before it leaves it. */
    method MakeRoom(regions: seq<seq<Coord>>, k: int, pseudoRandom: Random, rooms: seq<Room>,
                    ghost g: Grid, ghost from: nat, ghost binary: bool)
      returns (rooms': seq<Room>)
      requires Valid() && IsGrid(g, width, height) && 0 <= k < |regions|
      requires forall j :: 0 <= j < |regions| ==> IsRegion(g, width, height, 0, regions[j]) && OnMap(width, height, regions[j])
      requires forall c :: InSome(regions, c) <==> TileOf(g, width, height, 0, c)
      requires binary ==> Binary(g, width, height) && 0 <= minValue <= 1 && minValue <= maxValue <= 2
      requires FloorsPruned(g, regions, k, pseudoRandom, from)
      requires |regions[k]| >= RoomThresholdSize && AllInterior(width, height, regions[k])
      requires RoomsOf(rooms, Large(regions[..k], RoomThresholdSize), binary)
      ensures FloorsPruned(g, regions, k + 1, pseudoRandom, from)
      ensures RoomsOf(rooms', Large(regions[..k + 1], RoomThresholdSize), binary)
      ensures forall r :: r in rooms' ==> r in rooms || fresh(r)
    {
      LargeFloorKept(g, regions, k, pseudoRandom, from);
      LargeStep(regions, k, RoomThresholdSize);
      if binary {
        LargeFloorHasEdgeTile(g, regions, k, pseudoRandom, from);
      }
      rooms' := AddRoom(regions[k], rooms, Large(regions[..k], RoomThresholdSize), binary);
    }

    /** `survivingRooms.Add(new Room(roomRegion, _map))`: the room for one more large region,
        probed on the current map. */
    method AddRoom(region: seq<Coord>, rooms: seq<Room>, ghost large: seq<seq<Coord>>, ghost binary: bool)
      returns (rooms': seq<Room>)
      requires Valid() && AllInterior(width, height, region)
      requires RoomsOf(rooms, large, binary)
      requires binary ==> EdgeTilesOf(cells, width, height, region) != []
      ensures RoomsOf(rooms', large + [region], binary)
      ensures forall r :: r in rooms' ==> r in rooms || fresh(r)
    {
      var room := new Room(region, tileMap, cells);
      RoomsOfAppend(rooms, large, binary, room);
      rooms' := rooms + [room];
    }

    /** A large floor region that lies inside the border passes the checks and leaves the
        map and the generator as they are. */
    lemma LargeFloorKept(g: Grid, regions: seq<seq<Coord>>, k: int, pseudoRandom: Random, from: nat)
      requires IsGrid(g, width, height) && 0 <= k < |regions|
      requires forall j :: 0 <= j < |regions| ==> OnMap(width, height, regions[j])
      requires FloorsPruned(g, regions, k, pseudoRandom, from)
      requires |regions[k]| >= RoomThresholdSize && AllInterior(width, height, regions[k])
      ensures FloorsPruned(g, regions, k + 1, pseudoRandom, from)
    {
      assert regions[..k + 1][..k] == regions[..k];
      if minValue <= maxValue {
        PruneStep(g, width, height, regions, k, RoomThresholdSize, pseudoRandom.samples, from, minValue, maxValue);
      }
    }

    /** On a map of floors and walls refilled with floors and walls, an interior floor
        region still has an edge tile on the map as the earlier refills left it. */
    lemma LargeFloorHasEdgeTile(g: Grid, regions: seq<seq<Coord>>, k: int, pseudoRandom: Random, from: nat)
      requires Valid() && IsGrid(g, width, height) && 0 <= k < |regions|
      requires forall j :: 0 <= j < |regions| ==> IsRegion(g, width, height, 0, regions[j]) && OnMap(width, height, regions[j])
      requires forall c :: InSome(regions, c) <==> TileOf(g, width, height, 0, c)
      requires Binary(g, width, height) && 0 <= minValue <= 1 && minValue <= maxValue <= 2
      requires FloorsPruned(g, regions, k, pseudoRandom, from)
      requires AllInterior(width, height, regions[k])
      ensures EdgeTilesOf(cells, width, height, regions[k]) != []
    {
      LaterRoomHasEdgeTile(g, width, height, regions, k, RoomThresholdSize, pseudoRandom.samples, from, minValue, maxValue);
    }

    /** A floor region `k` smaller than `RoomThresholdSize` is refilled; fails, as the first
        draw would, when `minValue > maxValue`. */
    method RefillFloor(regions: seq<seq<Coord>>, k: int, pseudoRandom: Random, rooms: seq<Room>,
                       ghost g: Grid, ghost from: nat, ghost binary: bool)
      returns (ok: bool)
      requires Valid() && IsGrid(g, width, height) && 0 <= k < |regions|
      requires forall j :: 0 <= j < |regions| ==> OnMap(width, height, regions[j])
      requires regions[k] != [] && |regions[k]| < RoomThresholdSize
      requires FloorsPruned(g, regions, k, pseudoRandom, from)
      requires RoomsOf(rooms, Large(regions[..k], RoomThresholdSize), binary)
      modifies this`cells, tileMap, pseudoRandom
      ensures Valid()
      ensures ok <==> minValue <= maxValue
      ensures ok ==> FloorsPruned(g, regions, k + 1, pseudoRandom, from)
      ensures RoomsOf(rooms, Large(regions[..k + 1], RoomThresholdSize), binary)
    {
      assert regions[..k + 1][..k] == regions[..k];
      if minValue <= maxValue {
        PruneStep(g, width, height, regions, k, RoomThresholdSize, pseudoRandom.samples, from, minValue, maxValue);
      }
      LargeStep(regions, k, RoomThresholdSize);
      ok := RefillRegion(regions[k], pseudoRandom);
    }

    /** The floor loop of `ProcessMap`: every floor region smaller than
        `RoomThresholdSize` is refilled, in order, from the generator of the wall loop; every
        other one becomes a `Room` probed on the map as it is at that moment. Fails as the
        first draw would when `minValue > maxValue`, and as `Room` would when a room tile
        lies on the border. On a map of floors and walls, refilled with floors and walls,
        every room has an edge tile. */
    method PruneFloors(regions: seq<seq<Coord>>, pseudoRandom: Random) returns (survivingRooms: seq<Room>, error: Option<MapError>)
      requires Valid()
      requires forall k :: 0 <= k < |regions| ==> IsRegion(cells, width, height, 0, regions[k]) && OnMap(width, height, regions[k])
      requires PairwiseDisjoint(regions) && forall c :: InSome(regions, c) <==> TileOf(cells, width, height, 0, c)
      modifies this`cells, tileMap, pseudoRandom
      ensures Valid()
      ensures error == Some(MinAboveMax) ==> minValue > maxValue
      ensures error == Some(RoomOnMapEdge) ==>
        exists k :: 0 <= k < |regions| && |regions[k]| >= RoomThresholdSize && !AllInterior(width, height, regions[k])
      ensures error.None? || error == Some(MinAboveMax) || error == Some(RoomOnMapEdge)
      ensures error.None? ==> minValue <= maxValue || forall k :: 0 <= k < |regions| ==> |regions[k]| >= RoomThresholdSize
      ensures error.None? ==>
        forall k :: 0 <= k < |regions| && |regions[k]| >= RoomThresholdSize ==> AllInterior(width, height, regions[k])
      ensures error.None? && minValue <= maxValue ==>
        var p := Prune(old(cells), width, height, regions, RoomThresholdSize, pseudoRandom.samples, old(pseudoRandom.drawn), minValue, maxValue);
        cells == p.grid && pseudoRandom.drawn == p.used
      ensures error.None? && minValue > maxValue ==> cells == old(cells)
      ensures error.None? ==> RoomsOf(survivingRooms, Large(regions, RoomThresholdSize),
                                      Binary(old(cells), width, height) && 0 <= minValue <= 1 && minValue <= maxValue <= 2)
      ensures error.Some? ==> survivingRooms == []
      ensures forall r :: r in survivingRooms ==> fresh(r)
    {
      ghost var g := cells;
      ghost var from := pseudoRandom.drawn;
      ghost var binary := Binary(g, width, height) && 0 <= minValue <= 1 && minValue <= maxValue <= 2;
      survivingRooms := [];
      for k := 0 to |regions|
        invariant Valid()
        invariant FloorsPruned(g, regions, k, pseudoRandom, from)
        invariant RoomsOf(survivingRooms, Large(regions[..k], RoomThresholdSize), binary)
        invariant forall r :: r in survivingRooms ==> fresh(r)
      {
        var floorRegion := regions[k];
        if |floorRegion| < RoomThresholdSize {
          var refilled := RefillFloor(regions, k, pseudoRandom, survivingRooms, g, from, binary);
          if !refilled {
            return [], Some(MinAboveMax);
          }
        } else {
          if !AllInterior(width, height, floorRegion) {
            assert |regions[k]| >= RoomThresholdSize && !AllInterior(width, height, regions[k]);
            return [], Some(RoomOnMapEdge);
          }
          survivingRooms := MakeRoom(regions, k, pseudoRandom, survivingRooms, g, from, binary);
        }
      }
      FloorsDone(g, regions, pseudoRandom, from);
      assert regions[..|regions|] == regions;
      return survivingRooms, None;
    }

    /** Once every floor region is pruned, the map and the generator are as `Prune` leaves
        them after all of `regions`, and every large region lies inside the border. */
    lemma FloorsDone(g: Grid, regions: seq<seq<Coord>>, pseudoRandom: Random, from: nat)
      requires IsGrid(g, width, height)
      requires forall j :: 0 <= j < |regions| ==> OnMap(width, height, regions[j])
      requires FloorsPruned(g, regions, |regions|, pseudoRandom, from)
      ensures minValue <= maxValue || forall k :: 0 <= k < |regions| ==> |regions[k]| >= RoomThresholdSize
      ensures forall k :: 0 <= k < |regions| && |regions[k]| >= RoomThresholdSize ==> AllInterior(width, height, regions[k])
      ensures minValue <= maxValue ==>
        var p := Prune(g, width, height, regions, RoomThresholdSize, pseudoRandom.samples, from, minValue, maxValue);
        cells == p.grid && pseudoRandom.drawn == p.used
      ensures minValue > maxValue ==> cells == g
    {
      assert regions[..|regions|] == regions;
    }

    /** The pruning half of `ProcessMap`: the wall regions of the map, then the small ones
        refilled; the floor regions of the result, then the small ones refilled and the
        others made into rooms, all draws from one generator seeded with the level's seed. */
    method PruneRegions() returns (error: Option<MapError>, survivors: seq<Room>, ghost walls: seq<seq<Coord>>,
                                   ghost walled: Grid, ghost floors: seq<seq<Coord>>)
      requires Valid()
      modifies this`cells, tileMap
      ensures Valid() && PrunedFrom(old(cells), Stages(error, walls, walled, floors, cells, survivors, []))
      ensures Binary(old(cells), width, height) && 0 <= minValue <= 1 && minValue <= maxValue <= 2 ==> Binary(walled, width, height)
      ensures error.None? ==>
        forall k :: 0 <= k < |floors| && |floors[k]| >= RoomThresholdSize ==> AllInterior(width, height, floors[k])
      ensures error.None? ==> RoomsOf(survivors, Large(floors, RoomThresholdSize),
                                      Binary(walled, width, height) && 0 <= minValue <= 1 && minValue <= maxValue <= 2)
      ensures error.Some? ==> survivors == []
      ensures forall r :: r in survivors ==> fresh(r)
    {
      var pseudoRandom := new Random(hash(seed));
      var wallsPruned;
      wallsPruned, walls := PruneWallRegions(pseudoRandom);
      walled := cells;
      assert walled == if minValue <= maxValue
        then Prune(old(cells), width, height, walls, WallThresholdSize, hash(seed), 0, minValue, maxValue).grid
        else old(cells);
      floors := [];
      if !wallsPruned {
        return Some(MinAboveMax), [], walls, walled, floors;
      }
      survivors, error, floors := PruneFloorRegions(pseudoRandom);
    }

    /** The wall half of `ProcessMap`: the wall regions are found and the small ones
        refilled, drawing from `pseudoRandom`. */
    method PruneWallRegions(pseudoRandom: Random) returns (ok: bool, ghost walls: seq<seq<Coord>>)
      requires Valid()
      modifies this`cells, tileMap, pseudoRandom
      ensures Valid()
      ensures forall k :: 0 <= k < |walls| ==> IsRegion(old(cells), width, height, 1, walls[k])
      ensures PairwiseDisjoint(walls) && forall c :: InSome(walls, c) <==> TileOf(old(cells), width, height, 1, c)
      ensures walls == ScanRegions(old(cells), width, height, 1, width, 0)
      ensures forall k :: 0 <= k < |walls| ==> OnMap(width, height, walls[k])
      ensures ok <==> minValue <= maxValue || forall k :: 0 <= k < |walls| ==> |walls[k]| >= WallThresholdSize
      ensures minValue <= maxValue ==>
        var p := Prune(old(cells), width, height, walls, WallThresholdSize, pseudoRandom.samples, old(pseudoRandom.drawn), minValue, maxValue);
        cells == p.grid && pseudoRandom.drawn == p.used
      ensures minValue > maxValue ==> cells == old(cells) && pseudoRandom.drawn == old(pseudoRandom.drawn)
      ensures Binary(old(cells), width, height) && 0 <= minValue <= 1 && minValue <= maxValue <= 2 ==> Binary(cells, width, height)
    {
      var wallRegions := GetRegions(1);
      walls := wallRegions;
      RegionsOnMap(cells, width, height, 1, walls);
      if Binary(cells, width, height) && 0 <= minValue <= 1 && minValue <= maxValue <= 2 {
        PruneBinary(cells, width, height, walls, WallThresholdSize, pseudoRandom.samples, pseudoRandom.drawn, minValue, maxValue);
      }
      ok := PruneWalls(wallRegions, pseudoRandom);
    }

    /** The floor half of `ProcessMap`: the floor regions are found, the small ones refilled
        and the others made rooms, drawing from `pseudoRandom`. */
    method PruneFloorRegions(pseudoRandom: Random) returns (survivingRooms: seq<Room>, error: Option<MapError>,
                                                            ghost floors: seq<seq<Coord>>)
      requires Valid()
      modifies this`cells, tileMap, pseudoRandom
      ensures Valid()
      ensures forall k :: 0 <= k < |floors| ==> IsRegion(old(cells), width, height, 0, floors[k]) && OnMap(width, height, floors[k])
      ensures PairwiseDisjoint(floors) && forall c :: InSome(floors, c) <==> TileOf(old(cells), width, height, 0, c)
      ensures floors == ScanRegions(old(cells), width, height, 0, width, 0)
      ensures error == Some(MinAboveMax) ==> minValue > maxValue
      ensures error == Some(RoomOnMapEdge) ==>
        exists k :: 0 <= k < |floors| && |floors[k]| >= RoomThresholdSize && !AllInterior(width, height, floors[k])
      ensures error.None? || error == Some(MinAboveMax) || error == Some(RoomOnMapEdge)
      ensures error.None? ==> minValue <= maxValue || forall k :: 0 <= k < |floors| ==> |floors[k]| >= RoomThresholdSize
      ensures error.None? ==>
        forall k :: 0 <= k < |floors| && |floors[k]| >= RoomThresholdSize ==> AllInterior(width, height, floors[k])
      ensures error.None? && minValue <= maxValue ==>
        var p := Prune(old(cells), width, height, floors, RoomThresholdSize, pseudoRandom.samples, old(pseudoRandom.drawn), minValue, maxValue);
        cells == p.grid && pseudoRandom.drawn == p.used
      ensures error.None? && minValue > maxValue ==> cells == old(cells)
      ensures error.None? ==> RoomsOf(survivingRooms, Large(floors, RoomThresholdSize),
                                      Binary(old(cells), width, height) && 0 <= minValue <= 1 && minValue <= maxValue <= 2)
      ensures error.Some? ==> survivingRooms == []
      ensures forall r :: r in survivingRooms ==> fresh(r)
    {
      var roomRegions := GetRegions(0);
      floors := roomRegions;
      RegionsOnMap(cells, width, height, 0, floors);
      survivingRooms, error := PruneFloors(roomRegions, pseudoRandom);
    }

    /** The pruning half of `ProcessMap` applied to `before`, as `st` records it: the wall
        regions of `before` and the map with the small ones refilled, then the floor regions
        of that map and the map with the small ones of those refilled, each refill drawing
        from the seed's stream where the last stopped; on success, one room per large floor
        region, in order. */
    ghost predicate PrunedFrom(before: Grid, st: Stages)
      reads this`seed
    {
      IsGrid(before, width, height) && IsGrid(st.walled, width, height) && IsGrid(st.pruned, width, height) &&
      (forall k :: 0 <= k < |st.walls| ==> IsRegion(before, width, height, 1, st.walls[k]) && OnMap(width, height, st.walls[k])) &&
      PairwiseDisjoint(st.walls) && (forall c :: InSome(st.walls, c) <==> TileOf(before, width, height, 1, c)) &&
      st.walls == ScanRegions(before, width, height, 1, width, 0) &&
      st.walled == (if minValue <= maxValue
        then Prune(before, width, height, st.walls, WallThresholdSize, hash(seed), 0, minValue, maxValue).grid
        else before) &&
      (forall k :: 0 <= k < |st.floors| ==> OnMap(width, height, st.floors[k])) &&
      (st.error != Some(MinAboveMax) ==>
        (forall k :: 0 <= k < |st.floors| ==> IsRegion(st.walled, width, height, 0, st.floors[k])) &&
        PairwiseDisjoint(st.floors) && (forall c :: InSome(st.floors, c) <==> TileOf(st.walled, width, height, 0, c)) &&
        st.floors == ScanRegions(st.walled, width, height, 0, width, 0)) &&
      (st.error.None? || st.error == Some(MinAboveMax) || st.error == Some(RoomOnMapEdge)) &&
      (st.error == Some(MinAboveMax) ==> minValue > maxValue) &&
      (st.error == Some(RoomOnMapEdge) ==>
        exists k :: 0 <= k < |st.floors| && |st.floors[k]| >= RoomThresholdSize && !AllInterior(width, height, st.floors[k])) &&
      (st.error.None? ==>
        forall k :: 0 <= k < |st.floors| && |st.floors[k]| >= RoomThresholdSize ==> AllInterior(width, height, st.floors[k])) &&
      (st.error.None? ==>
        (minValue <= maxValue ||
         ((forall k :: 0 <= k < |st.walls| ==> |st.walls[k]| >= WallThresholdSize) &&
          (forall k :: 0 <= k < |st.floors| ==> |st.floors[k]| >= RoomThresholdSize)))) &&
      (st.error.None? && minValue <= maxValue ==>
        var used := Prune(before, width, height, st.walls, WallThresholdSize, hash(seed), 0, minValue, maxValue).used;
        st.pruned == Prune(st.walled, width, height, st.floors, RoomThresholdSize, hash(seed), used, minValue, maxValue).grid) &&
      (st.error.None? && minValue > maxValue ==> st.pruned == st.walled) &&
      (st.error.None? ==>
        |st.survivors| == |Large(st.floors, RoomThresholdSize)| && NoDuplicates(st.survivors) &&
        forall i :: 0 <= i < |st.survivors| ==>
          st.survivors[i].tiles == Large(st.floors, RoomThresholdSize)[i] && st.survivors[i].roomSize == |st.survivors[i].tiles|) &&
      (st.error.Some? ==> st.survivors == [] && st.passages == [])
    }

    /** `rooms` are `survivors` sorted largest first, the first of them the main room. */
    ghost predicate Ranked(survivors: seq<Room>, rooms: seq<Room>)
      reads RoomSet(rooms)`isMainRoom
    {
      (forall r :: r in rooms ==> r in survivors) &&
      multiset(rooms) == multiset(survivors) && SortedBySize(rooms) && NoDuplicates(rooms) &&
      (rooms != [] ==> rooms[0].isMainRoom) &&
      (forall i :: 0 < i < |rooms| ==> !rooms[i].isMainRoom)
    }

    /** The joining half of `ProcessMap`, as `st` records it: `rooms` are the survivors
        ranked, and they are joined from the map `st.pruned` by the passages `st.passages`. */
    ghost predicate JoinedFrom(rooms: seq<Room>, st: Stages)
      reads this, RoomSet(rooms)
    {
      Ranked(st.survivors, rooms) && Joined(rooms, st.pruned, st.passages)
    }

    /** `rooms`, first of all the main room, are joined from the map `before` by `passages`:
        each passage runs between two rooms, the rooms record exactly their partners in the
        passages, the map is `before` cleared exactly along them, the room graph is sound and
        settled, every room the greedy phase may pair has a passage, and a room is marked
        exactly when a chain of passages leads to it from the first room, which is marked. */
    ghost predicate Joined(rooms: seq<Room>, before: Grid, passages: seq<Candidate>)
      reads this, RoomSet(rooms)
    {
      (rooms != [] ==> rooms[0].isAccessibleFromMainRoom) &&
      AllDrawn(passages, rooms) &&
      (forall r :: r in rooms ==> r.connectedRooms == PartnersIn(passages, r)) &&
      IsGrid(cells, width, height) && IsGrid(before, width, height) &&
      (forall x, y :: InBounds(width, height, x, y) ==>
        cells[x][y] == if CarvedBy(passages, x, y) then 0 else before[x][y]) &&
      GraphOK(RoomSet(rooms)) && Settled(rooms) &&
      (forall i :: 0 <= i < |rooms| && HasPartner(rooms, i) ==> |rooms[i].connectedRooms| > 0) &&
      (rooms != [] ==> forall i :: 0 <= i < |rooms| ==>
        (rooms[i].isAccessibleFromMainRoom <==> Reaches(Links(RoomSet(rooms)), rooms[0], rooms[i])))
    }

    /** `ProcessMap`: small wall and floor regions are refilled, the other floor regions
        become rooms, sorted largest first; the largest is the main room and accessible, and
        `ConnectClosestRooms` joins them. A room ends up accessible exactly when a chain of
        passages leads to it from the main room, and on a map of floors and walls refilled
        with floors and walls that is every room. */
    method ProcessMap() returns (error: Option<MapError>, rooms: seq<Room>, ghost walls: seq<seq<Coord>>,
                                 ghost walled: Grid, ghost floors: seq<seq<Coord>>, ghost pruned: Grid,
                                 ghost survivors: seq<Room>, ghost passages: seq<Candidate>)
      requires Valid()
      modifies this`cells, tileMap
      ensures Valid()
      ensures PrunedFrom(old(cells), Stages(error, walls, walled, floors, pruned, survivors, passages))
      ensures error.None? ==> JoinedFrom(rooms, Stages(error, walls, walled, floors, pruned, survivors, passages))
      ensures error.Some? ==> rooms == [] && cells == pruned
      ensures forall r :: r in rooms ==> fresh(r)
      ensures error.None? && Binary(old(cells), width, height) && 0 <= minValue <= 1 && minValue <= maxValue <= 2 ==>
        forall i :: 0 <= i < |rooms| ==>
          rooms[i].edgeTiles != [] && rooms[i].isAccessibleFromMainRoom && Reaches(Links(RoomSet(rooms)), rooms[0], rooms[i])
    {
      var survivingRooms;
      error, survivingRooms, walls, walled, floors := PruneRegions();
      survivors := survivingRooms;
      pruned := cells;
      passages := [];
      if error.Some? {
        return error, [], walls, walled, floors, pruned, [], [];
      }
      ghost var edges := Binary(walled, width, height) && 0 <= minValue <= 1 && minValue <= maxValue <= 2;
      rooms, passages := JoinRooms(survivingRooms, edges);
    }

    /** The joining half of `ProcessMap`: the rooms sorted largest first, the first marked as
        the main room and accessible, then `ConnectClosestRooms`. A room ends up marked
        exactly when a chain of passages leads to it from the main room; if every room has
        edge tiles, that is every room. */
    method JoinRooms(survivors: seq<Room>, ghost edges: bool) returns (rooms: seq<Room>, ghost passages: seq<Candidate>)
      requires Valid() && NoDuplicates(survivors)
      requires forall r :: r in survivors ==> Unjoined(r) && (edges ==> r.edgeTiles != [])
      modifies this`cells, tileMap, set r | r in survivors
      ensures Valid() && Ranked(survivors, rooms) && Joined(rooms, old(cells), passages)
      ensures edges ==> forall i :: 0 <= i < |rooms| ==>
        rooms[i].edgeTiles != [] && rooms[i].isAccessibleFromMainRoom && Reaches(Links(RoomSet(rooms)), rooms[0], rooms[i])
    {
      rooms := RankRooms(survivors, edges);
      passages := JoinRanked(rooms, edges, RoomSet(rooms));
    }

    /** The second half of joining the rooms: `ConnectClosestRooms` on the ranked rooms, whose
        first room alone is accessible and none of which has passages yet. */
    method JoinRanked(rooms: seq<Room>, ghost edges: bool, ghost all: set<Room>) returns (ghost passages: seq<Candidate>)
      requires Valid() && NoDuplicates(rooms) && all == RoomSet(rooms)
      requires rooms != [] ==> rooms[0].isAccessibleFromMainRoom
      requires forall i :: 0 < i < |rooms| ==> !rooms[i].isAccessibleFromMainRoom
      requires forall r :: r in rooms ==> r.connectedRooms == [] && (edges ==> r.edgeTiles != [])
      modifies this`cells, tileMap, all`connectedRooms, all`isAccessibleFromMainRoom
      ensures Valid()
      ensures Joined(rooms, old(cells), passages)
      ensures unchanged(all`isMainRoom)
      ensures edges ==> forall i :: 0 <= i < |rooms| ==>
        rooms[i].edgeTiles != [] && rooms[i].isAccessibleFromMainRoom && Reaches(Links(RoomSet(rooms)), rooms[0], rooms[i])
    {
      RankedState(rooms, all);
      ghost var s0 := State(all);
      label ranked:
      passages := ConnectClosestRooms(rooms, false, all);
      assert unchanged@ranked(all`isMainRoom);
      JoinedAfter(rooms, all, s0, passages, edges);
    }

    /** Ranked rooms without passages, the first alone marked: a sound room graph in which
        every marked room is reached from the first. */
    lemma RankedState(rooms: seq<Room>, all: set<Room>)
      requires all == RoomSet(rooms) && (rooms != [] ==> rooms[0].isAccessibleFromMainRoom)
      requires forall i :: 0 < i < |rooms| ==> !rooms[i].isAccessibleFromMainRoom
      requires forall r :: r in rooms ==> r.connectedRooms == []
      ensures GraphOK(all)
      ensures forall r :: r in rooms ==> r in State(all).links && State(all).links[r] == []
      ensures rooms != [] ==> rooms[0] in State(all).marks && State(all).marks[rooms[0]]
      ensures rooms != [] ==> RootedIn(State(all).links, State(all).marks, rooms[0])
    {
      UnjoinedGraphOK(all);
      if |rooms| > 0 {
        ReachesSelf(Links(all), rooms[0]);
        assert Rooted(all, rooms[0]);
      }
    }

    /** What `ConnectClosestRooms` makes of ranked rooms without passages, the first alone
        marked and so reached from itself: the rooms joined from the map of `s0` by the
        passages, and, when every room has edge tiles, every room marked and reached. */
    lemma JoinedAfter(rooms: seq<Room>, all: set<Room>, s0: Snapshot, passages: seq<Candidate>, edges: bool)
      requires all == RoomSet(rooms) && s0.links.Keys == all && s0.marks.Keys == all
      requires forall r :: r in rooms ==> r in s0.links && s0.links[r] == [] && (edges ==> r.edgeTiles != [])
      requires rooms != [] ==> rooms[0] in s0.marks && s0.marks[rooms[0]] && RootedIn(s0.links, s0.marks, rooms[0])
      requires Valid() && GraphOK(all) && Settled(rooms) && AllDrawn(passages, rooms)
      requires Joins(s0, State(all), passages) && Partnered(State(all).links, rooms, |rooms|)
      ensures Joined(rooms, s0.grid, passages)
      ensures edges ==> forall i :: 0 <= i < |rooms| ==>
        rooms[i].edgeTiles != [] && rooms[i].isAccessibleFromMainRoom && Reaches(Links(RoomSet(rooms)), rooms[0], rooms[i])
    {
      JoinedLinks(rooms, all, s0, passages);
      assert GraphOK(RoomSet(rooms));
      assert IsGrid(cells, width, height) && IsGrid(s0.grid, width, height);
      assert forall x, y :: InBounds(width, height, x, y) ==>
        cells[x][y] == if CarvedBy(passages, x, y) then 0 else s0.grid[x][y];
      if |rooms| > 0 {
        JoinedMarks(rooms, all, s0, passages);
        assert rooms[0].isAccessibleFromMainRoom;
        assert forall i :: 0 <= i < |rooms| ==>
          (rooms[i].isAccessibleFromMainRoom <==> Reaches(Links(RoomSet(rooms)), rooms[0], rooms[i]));
        if edges {
          EdgesAllMarked(rooms);
        }
      }
    }

    /** In settled rooms whose first is marked, a room with edge tiles is marked when the
        first has edge tiles too. */
    lemma EdgesAllMarked(rooms: seq<Room>)
      requires rooms != [] && rooms[0].isAccessibleFromMainRoom && Settled(rooms)
      requires forall r :: r in rooms ==> r.edgeTiles != []
      ensures forall i :: 0 <= i < |rooms| ==> rooms[i].isAccessibleFromMainRoom
    {
      forall i | 0 <= i < |rooms|
        ensures rooms[i].isAccessibleFromMainRoom
      {
        assert rooms[i].edgeTiles != [] && rooms[0].edgeTiles != [];
      }
    }

    /** Rooms without passages before record exactly their partners in the passages made,
        and every room the greedy phase may pair has one. */
    lemma JoinedLinks(rooms: seq<Room>, all: set<Room>, s0: Snapshot, passages: seq<Candidate>)
      requires s0.links.Keys == all && s0.marks.Keys == all
      requires forall r :: r in rooms ==> r in s0.links && s0.links[r] == []
      requires Joins(s0, State(all), passages) && Partnered(State(all).links, rooms, |rooms|)
      ensures forall r :: r in rooms ==> r.connectedRooms == PartnersIn(passages, r)
      ensures forall i :: 0 <= i < |rooms| && HasPartner(rooms, i) ==> |rooms[i].connectedRooms| > 0
    {
      ghost var s := State(all);
      forall r | r in rooms
        ensures r.connectedRooms == PartnersIn(passages, r)
      {
        assert s.links[r] == s0.links[r] + PartnersIn(passages, r);
      }
      forall i | 0 <= i < |rooms| && HasPartner(rooms, i)
        ensures |rooms[i].connectedRooms| > 0
      {
        assert s.links[rooms[i]] != [];
      }
    }

    /** With the first room marked and every marked room reached from it before, the first
        room stays marked and a room is marked exactly when it is reached from the first. */
    lemma JoinedMarks(rooms: seq<Room>, all: set<Room>, s0: Snapshot, passages: seq<Candidate>)
      requires rooms != [] && all == RoomSet(rooms) && s0.links.Keys == all && s0.marks.Keys == all
      requires rooms[0] in s0.marks && s0.marks[rooms[0]] && RootedIn(s0.links, s0.marks, rooms[0])
      requires GraphOK(all) && Joins(s0, State(all), passages)
      ensures rooms[0].isAccessibleFromMainRoom
      ensures forall i :: 0 <= i < |rooms| ==>
        (rooms[i].isAccessibleFromMainRoom <==> Reaches(Links(all), rooms[0], rooms[i]))
    {
      assert rooms[0] in all && State(all).marks[rooms[0]];
      assert Rooted(all, rooms[0]);
      MarkedIffReached(all, rooms[0]);
    }

    /** The first half of joining the rooms: `survivingRooms.Sort()` puts the largest room
        first, and that room becomes the main room and accessible from itself. */
    method RankRooms(survivors: seq<Room>, ghost edges: bool) returns (rooms: seq<Room>)
      requires NoDuplicates(survivors)
      requires forall r :: r in survivors ==> Unjoined(r) && (edges ==> r.edgeTiles != [])
      modifies set r | r in survivors
      ensures Ranked(survivors, rooms)
      ensures rooms != [] ==> rooms[0].isAccessibleFromMainRoom
      ensures forall i :: 0 < i < |rooms| ==> !rooms[i].isAccessibleFromMainRoom
      ensures forall r :: r in rooms ==> r.connectedRooms == old(r.connectedRooms) == [] && (edges ==> r.edgeTiles != [])
    {
      rooms := SortBySize(survivors);
      assert forall r :: r in rooms ==> r in survivors by {
        forall r | r in rooms ensures r in survivors {
          assert r in multiset(rooms);
        }
      }
      PermutationKeepsNoDuplicates(survivors, rooms);
      assert forall i :: 0 <= i < |rooms| ==> Unjoined(rooms[i]) && (edges ==> rooms[i].edgeTiles != []);
      if |rooms| > 0 {
        var main := rooms[0];
        main.isMainRoom := true;
        main.isAccessibleFromMainRoom := true;
        forall i | 0 < i < |rooms|
          ensures !rooms[i].isMainRoom && !rooms[i].isAccessibleFromMainRoom
        {
          assert rooms[0] != rooms[i];
        }
      }
    }

    /** `CreatePassage(roomA, roomB, tileA, tileB)`: joins the two rooms and clears a disc
        of radius `PassageRadius` around every point of the line from `tileA` to `tileB`.
        The marks spread as `ConnectRooms` says: only into rooms now reached from both. The
        carving touches only the map and the joining only the rooms, so the model carves
        first. */
    method CreatePassage(roomA: Room, roomB: Room, tileA: Coord, tileB: Coord, ghost all: set<Room>)
      requires Valid() && roomA in all && roomB in all && Within(all)
      modifies this`cells, tileMap, all`connectedRooms, all`isAccessibleFromMainRoom
      ensures Valid() && Within(all)
      ensures forall x, y :: InBounds(width, height, x, y) ==>
        cells[x][y] == if Carved(tileA, tileB, PassageRadius, x, y) then 0 else old(cells)[x][y]
      ensures roomA != roomB ==>
        roomA.connectedRooms == old(roomA.connectedRooms) + [roomB] &&
        roomB.connectedRooms == old(roomB.connectedRooms) + [roomA]
      ensures roomA == roomB ==> roomA.connectedRooms == old(roomA.connectedRooms) + [roomA, roomA]
      ensures forall r :: r in all && r != roomA && r != roomB ==> r.connectedRooms == old(r.connectedRooms)
      ensures old(roomA.isAccessibleFromMainRoom) || old(roomB.isAccessibleFromMainRoom) ==>
        roomA.isAccessibleFromMainRoom && roomB.isAccessibleFromMainRoom
      ensures !old(roomA.isAccessibleFromMainRoom) && !old(roomB.isAccessibleFromMainRoom) ==>
        forall r :: r in all ==> r.isAccessibleFromMainRoom == old(r.isAccessibleFromMainRoom)
      ensures forall r :: r in all && old(r.isAccessibleFromMainRoom) ==> r.isAccessibleFromMainRoom
      ensures forall r :: r in all && r.isAccessibleFromMainRoom && !old(r.isAccessibleFromMainRoom) ==>
        Reaches(Links(all), roomA, r) && Reaches(Links(all), roomB, r)
      ensures forall m :: m in all && old(Rooted(all, m)) ==> Rooted(all, m)
      ensures old(GraphOK(all)) && roomA != roomB && !old(roomA.IsConnected(roomB)) ==> GraphOK(all)
    {
      CarvePassage(tileA, tileB);
      Room.ConnectRooms(roomA, roomB, all);
    }

    /** The carving half of `CreatePassage`: `GetLine(tileA, tileB)`, then a disc around
        each of its points. */
    method CarvePassage(tileA: Coord, tileB: Coord)
      requires Valid()
      modifies this`cells, tileMap
      ensures Valid()
      ensures forall x, y :: InBounds(width, height, x, y) ==>
        cells[x][y] == if Carved(tileA, tileB, PassageRadius, x, y) then 0 else old(cells)[x][y]
    {
      var line := GetLine(tileA, tileB);
      CarveLine(line);
      forall x, y | InBounds(width, height, x, y)
        ensures NearLine(line, PassageRadius, x, y) <==> Carved(tileA, tileB, PassageRadius, x, y)
      {
        NearLineIsCarved(line, tileA, tileB, PassageRadius, x, y);
      }
    }

    /** The loop of `CreatePassage`: `DrawCircle(c, PassageRadius)` for every point `c` of the line. */
    method CarveLine(line: seq<Coord>)
      requires Valid()
      modifies this`cells, tileMap
      ensures Valid()
      ensures forall x, y :: InBounds(width, height, x, y) ==>
        cells[x][y] == if NearLine(line, PassageRadius, x, y) then 0 else old(cells)[x][y]
    {
      for i := 0 to |line|
        invariant Valid()
        invariant forall x, y :: InBounds(width, height, x, y) ==>
          cells[x][y] == if NearLine(line[..i], PassageRadius, x, y) then 0 else old(cells)[x][y]
      {
        DrawCircle(line[i], PassageRadius);
        forall x, y | InBounds(width, height, x, y)
          ensures NearLine(line[..i + 1], PassageRadius, x, y) <==> NearLine(line[..i], PassageRadius, x, y) || InDisc(line[i], PassageRadius, x, y)
        {
          NearLineExtend(line, i, PassageRadius, x, y);
        }
      }
      assert line[..|line|] == line;
    }

    /** The rooms' passages and marks and the map, as values. */
    ghost function State(all: set<Room>): (s: Snapshot)
      reads this, all
      ensures s.links.Keys == all && s.marks.Keys == all
    {
      Snapshot(Links(all), Marks(all), cells)
    }

    /** From map `g0` to map `g`, exactly the tiles the passages of `log` clear were cleared. */
    ghost predicate GridCarved(g0: Grid, g: Grid, log: seq<Candidate>) {
      IsGrid(g0, width, height) && IsGrid(g, width, height) &&
      forall x, y :: InBounds(width, height, x, y) ==> g[x][y] == if CarvedBy(log, x, y) then 0 else g0[x][y]
    }

    /** From `s0` to `s`, the passages of `log` were made and nothing else: the rooms as
        `RoomsJoin` says, the map as `GridCarved` says. */
    ghost predicate Joins(s0: Snapshot, s: Snapshot, log: seq<Candidate>) {
      RoomsJoin(s0.links, s0.marks, s.links, s.marks, log) && GridCarved(s0.grid, s.grid, log)
    }

    /** Two runs of carving, one after the other, clear what either log clears. */
    lemma GridCarvedCompose(g0: Grid, g1: Grid, g2: Grid, log1: seq<Candidate>, log2: seq<Candidate>)
      requires GridCarved(g0, g1, log1) && GridCarved(g1, g2, log2)
      ensures GridCarved(g0, g2, log1 + log2)
    {
      forall x, y | InBounds(width, height, x, y)
        ensures g2[x][y] == if CarvedBy(log1 + log2, x, y) then 0 else g0[x][y]
      {
        CarvedByAppend(log1, log2, x, y);
      }
    }

    /** Two runs of passage making, one after the other, make the passages of both logs. */
    lemma JoinsCompose(s0: Snapshot, s1: Snapshot, s2: Snapshot, log1: seq<Candidate>, log2: seq<Candidate>)
      requires Joins(s0, s1, log1) && Joins(s1, s2, log2)
      ensures Joins(s0, s2, log1 + log2)
    {
      RoomsJoinCompose(s0.links, s0.marks, s1.links, s1.marks, s2.links, s2.marks, log1, log2);
      GridCarvedCompose(s0.grid, s1.grid, s2.grid, log1, log2);
    }

    /** Making no passages changes nothing. */
    lemma JoinsNothing(s: Snapshot)
      requires IsGrid(s.grid, width, height) && s.links.Keys == s.marks.Keys
      ensures Joins(s, s, [])
    {
    }

    /** `ConnectClosestRooms(allRooms, forceAccessibilityFromMainRoom)`. The greedy phase
        joins each room without passages to its closest eligible room; the forced phase then
        joins the closest pair of an inaccessible and an accessible room, again and again,
        until no such pair has edge tiles on both sides. `passages` lists the passages made,
        in order, each between two rooms of `allRooms`; nothing else changes, the room graph
        stays sound, and the rooms end up settled. */
    method ConnectClosestRooms(allRooms: seq<Room>, force: bool, ghost all: set<Room>) returns (ghost passages: seq<Candidate>)
      requires Valid() && GraphOK(all) && forall r :: r in allRooms ==> r in all
      modifies this`cells, tileMap, all`connectedRooms, all`isAccessibleFromMainRoom
      ensures Valid() && GraphOK(all) && Settled(allRooms)
      ensures AllDrawn(passages, allRooms)
      ensures Joins(old(State(all)), State(all), passages)
      ensures !force ==> Partnered(State(all).links, allRooms, |allRooms|)
      decreases if force then 0 else 1, Unmarked(Marks(all))
    {
      ghost var s0 := State(all);
      ghost var first: seq<Candidate>;
      if !force {
        first := GreedyPhase(allRooms, all);
      } else {
        var found;
        found, first := ForcedRound(allRooms, all);
        if !found {
          return first;
        }
      }
      ghost var s1 := State(all);
      ghost var rest := ConnectClosestRooms(allRooms, true, all);
      passages := first + rest;
      JoinsCompose(s0, s1, State(all), first, rest);
      AllDrawnAppend(first, rest, allRooms);
      if !force {
        JoinsKeepPartnered(s1, State(all), rest, allRooms);
      }
    }

    /** One round of the forced phase: the closest pair of an inaccessible and an accessible
        room, as `PickForced` finds it, is joined by a passage. With a pair found, one more
        room becomes accessible; with none, nothing changes and the rooms are settled. */
    method ForcedRound(allRooms: seq<Room>, ghost all: set<Room>) returns (found: bool, ghost first: seq<Candidate>)
      requires Valid() && GraphOK(all) && forall r :: r in allRooms ==> r in all
      modifies this`cells, tileMap, all`connectedRooms, all`isAccessibleFromMainRoom
      ensures Valid() && GraphOK(all)
      ensures AllDrawn(first, allRooms) && Joins(old(State(all)), State(all), first)
      ensures !found ==> first == [] && Settled(allRooms)
      ensures found ==> Unmarked(Marks(all)) < Unmarked(old(Marks(all)))
    {
      ghost var s0 := State(all);
      var best, listA, listB := PickForced(allRooms, all);
      assert State(all) == s0;
      if best.None? {
        JoinsNothing(s0);
        return false, [];
      }
      first := [best.value];
      AllDrawnSnoc([], best.value, allRooms);
      ForcedJoin(best.value, allRooms, all, s0);
      found := true;
    }

    /** The passage of a forced round, from an inaccessible room to an accessible one: the
        inaccessible room becomes accessible. */
    method ForcedJoin(c: Candidate, ghost allRooms: seq<Room>, ghost all: set<Room>, ghost s0: Snapshot)
      requires State(all) == s0 && Valid() && GraphOK(all) && Drawn(c, allRooms) && (forall r :: r in allRooms ==> r in all)
      requires !c.roomA.IsConnected(c.roomB) && !c.roomA.isAccessibleFromMainRoom && c.roomB.isAccessibleFromMainRoom
      modifies this`cells, tileMap, all`connectedRooms, all`isAccessibleFromMainRoom
      ensures Valid() && GraphOK(all) && Joins(s0, State(all), [c])
      ensures Unmarked(Marks(all)) < Unmarked(s0.marks)
    {
      MakePassage(c, allRooms, all);
      UnmarkedShrinks(s0.marks, Marks(all), c.roomA);
    }

    /** The search of one round of the forced phase: list A holds the rooms not yet
        accessible and list B the accessible ones, then the closest pair across the two lists
        is found. A pair found joins an inaccessible room not yet joined to an accessible
        one; with none, the rooms are settled. */
    method PickForced(allRooms: seq<Room>, ghost all: set<Room>) returns (best: Option<Candidate>, listA: seq<Room>, listB: seq<Room>)
      requires Valid() && GraphOK(all) && forall r :: r in allRooms ==> r in all
      ensures Valid() && GraphOK(all)
      ensures forall r :: r in listA <==> r in allRooms && !r.isAccessibleFromMainRoom
      ensures forall r :: r in listB <==> r in allRooms && r.isAccessibleFromMainRoom
      ensures best.Some? ==> Genuine(best.value, listA, listB) && Nearest(best.value.distance, listA, listB)
      ensures best.None? <==> NoPair(listA, listB)
      ensures best.Some? ==>
        Drawn(best.value, allRooms) && !best.value.roomA.IsConnected(best.value.roomB) &&
        !best.value.roomA.isAccessibleFromMainRoom && best.value.roomB.isAccessibleFromMainRoom
      ensures best.None? ==> Settled(allRooms)
    {
      listA, listB := SplitByAccess(allRooms);
      best := ScanAll(listA, listB);
      if best.Some? {
        NoPassageAcrossMark(all, best.value.roomB, best.value.roomA);
      } else {
        SettledWhenNoPair(allRooms, listA, listB, all);
      }
    }

    /** The greedy phase: `GreedyRound` for every room in order, each passage it makes
        appended to `passages`. Afterwards every room with edge tiles has a passage, provided
        some other room has edge tiles too. */
    method GreedyPhase(allRooms: seq<Room>, ghost all: set<Room>) returns (ghost passages: seq<Candidate>)
      requires Valid() && GraphOK(all) && forall r :: r in allRooms ==> r in all
      modifies this`cells, tileMap, all`connectedRooms, all`isAccessibleFromMainRoom
      ensures Valid() && GraphOK(all)
      ensures AllDrawn(passages, allRooms)
      ensures Joins(old(State(all)), State(all), passages)
      ensures Partnered(State(all).links, allRooms, |allRooms|)
    {
      passages := [];
      assert Joins(old(State(all)), State(all), passages);
      for i := 0 to |allRooms|
        invariant Valid() && GraphOK(all)
        invariant AllDrawn(passages, allRooms)
        invariant Joins(old(State(all)), State(all), passages)
        invariant Partnered(State(all).links, allRooms, i)
      {
        passages := GreedyRound(allRooms, i, all, old(State(all)), passages);
      }
    }

    /** One round of the greedy phase, `roomA := allRooms[i]`: the passage `PickGreedy`
        chooses, if any, is made and appended to the log `passages` of what was made since
        `s0`. */
    method GreedyRound(allRooms: seq<Room>, i: int, ghost all: set<Room>, ghost s0: Snapshot, ghost passages: seq<Candidate>)
      returns (ghost passages': seq<Candidate>)
      requires Valid() && GraphOK(all) && (forall r :: r in allRooms ==> r in all) && 0 <= i < |allRooms|
      requires AllDrawn(passages, allRooms) && Joins(s0, State(all), passages) && Partnered(State(all).links, allRooms, i)
      modifies this`cells, tileMap, all`connectedRooms, all`isAccessibleFromMainRoom
      ensures Valid() && GraphOK(all)
      ensures AllDrawn(passages', allRooms) && Joins(s0, State(all), passages') && Partnered(State(all).links, allRooms, i + 1)
    {
      ghost var s1 := State(all);
      assert allRooms[i] in all;
      var best := PickGreedy(allRooms, i, all);
      assert State(all) == s1;
      if best.Some? {
        AllDrawnSnoc(passages, best.value, allRooms);
        passages' := passages + [best.value];
        MakePassage(best.value, allRooms, all);
        JoinsCompose(s0, s1, State(all), passages, [best.value]);
        GreedyKeepsPartners(allRooms, i, s1, State(all), [best.value]);
      } else {
        PartneredStep(s1.links, allRooms, i);
        passages' := passages;
      }
    }

    /** The search of one round of the greedy phase, `roomA := allRooms[i]`: a room without
        passages is paired with its closest eligible room of `allRooms`, if any, the first
        such in order on ties; a room with passages is skipped. */
    method PickGreedy(allRooms: seq<Room>, i: int, ghost all: set<Room>) returns (best: Option<Candidate>)
      requires Valid() && GraphOK(all) && 0 <= i < |allRooms|
      ensures Valid() && GraphOK(all)
      ensures allRooms[i].connectedRooms != [] ==> best.None?
      ensures best.Some? ==> Genuine(best.value, [allRooms[i]], allRooms) && best.value.roomA == allRooms[i]
      ensures best.Some? ==> forall j :: 0 <= j < |allRooms| ==> AtLeast(best.value.distance, allRooms[i], allRooms[j])
      ensures best.None? && allRooms[i].connectedRooms == [] ==> forall j :: 0 <= j < |allRooms| ==> Unpairable(allRooms[i], allRooms[j])
      ensures best.Some? ==> Drawn(best.value, allRooms) && !best.value.roomA.IsConnected(best.value.roomB)
      ensures best.None? && HasPartner(allRooms, i) ==> allRooms[i].connectedRooms != []
    {
      var roomA := allRooms[i];
      best := None;
      if |roomA.connectedRooms| == 0 {
        best := ScanRooms(roomA, allRooms, None);
        if best.None? {
          forall j | 0 <= j < |allRooms| && allRooms[j] != roomA
            ensures roomA.edgeTiles == [] || allRooms[j].edgeTiles == []
          {
            assert Unpairable(roomA, allRooms[j]);
          }
        }
      }
    }

    /** Making passages takes none away, so rooms with passages keep them. */
    lemma JoinsKeepPartnered(s0: Snapshot, s: Snapshot, log: seq<Candidate>, rooms: seq<Room>)
      requires Joins(s0, s, log) && Partnered(s0.links, rooms, |rooms|)
      ensures Partnered(s.links, rooms, |rooms|)
    {
    }

    /** One more room taken by the greedy phase, with a passage if it has a partner. */
    lemma PartneredStep(links: map<Room, seq<Room>>, rooms: seq<Room>, i: int)
      requires 0 <= i < |rooms| && Partnered(links, rooms, i)
      requires HasPartner(rooms, i) ==> rooms[i] in links && links[rooms[i]] != []
      ensures Partnered(links, rooms, i + 1)
    {
    }

    /** After a passage from `allRooms[i]`, that room and every room that had passages has
        passages. */
    lemma GreedyKeepsPartners(allRooms: seq<Room>, i: int, s0: Snapshot, s: Snapshot, log: seq<Candidate>)
      requires 0 <= i < |allRooms| && Joins(s0, s, log) && |log| == 1 && log[0].roomA == allRooms[i]
      requires Partnered(s0.links, allRooms, i) && allRooms[i] in s0.links
      ensures Partnered(s.links, allRooms, i + 1)
    {
      assert log == [log[0]];
      OneLog(log[0], allRooms[i]);
    }

    /** `CreatePassage` for the pair `c` of two rooms of `allRooms` not yet joined, seen as a
        log of one passage; if either room was accessible, both are. */
    method MakePassage(c: Candidate, ghost allRooms: seq<Room>, ghost all: set<Room>)
      requires Valid() && GraphOK(all) && Drawn(c, allRooms) && (forall r :: r in allRooms ==> r in all)
      requires !c.roomA.IsConnected(c.roomB)
      modifies this`cells, tileMap, all`connectedRooms, all`isAccessibleFromMainRoom
      ensures Valid() && GraphOK(all)
      ensures Joins(old(State(all)), State(all), [c])
      ensures old(c.roomA.isAccessibleFromMainRoom) || old(c.roomB.isAccessibleFromMainRoom) ==>
        c.roomA.isAccessibleFromMainRoom && c.roomB.isAccessibleFromMainRoom
    {
      ghost var links0, marks0 := Links(all), Marks(all);
      CarveFor(c);
      assert Links(all) == links0 && Marks(all) == marks0;
      ghost var g := cells;
      JoinPair(c, allRooms, all);
      assert cells == g;
      assert RoomsJoin(links0, marks0, Links(all), Marks(all), [c]);
    }

    /** `CarvePassage` from the tiles of `c`, seen as a log of one passage. */
    method CarveFor(c: Candidate)
      requires Valid()
      modifies this`cells, tileMap
      ensures Valid() && GridCarved(old(cells), cells, [c])
    {
      CarvePassage(c.tileA, c.tileB);
      forall x, y | InBounds(width, height, x, y)
        ensures cells[x][y] == if CarvedBy([c], x, y) then 0 else old(cells)[x][y]
      {
        OneLogCarves(c, x, y);
      }
    }

    /** `GetRegionTiles(startX, startY)`: the breadth-first flood fill from the start tile
        through orthogonal neighbours of the same value; the start tile comes first. */
    method GetRegionTiles(startX: int, startY: int) returns (tiles: seq<Coord>)
      requires Valid() && InBounds(width, height, startX, startY)
      ensures IsRegion(cells, width, height, cells[startX][startY], tiles)
      ensures tiles[0] == Coord(startX, startY)
      ensures tiles == FloodFrom(cells, width, height, cells[startX][startY], Coord(startX, startY))
    {
      var w, h := width, height;
      ghost var g := cells;
      tiles := [];
      var mapFlags := new int[w, h]((_, _) => 0);
      var tileType := tileMap[startX, startY];
      var start := Coord(startX, startY);
      var queue := [start];
      mapFlags[startX, startY] := 1;
      ghost var marked: set<Coord> := {start};
      FloodStart(g, w, h, tileType, start);
      while |queue| > 0
        invariant Valid() && g == cells && Flags(mapFlags, w, h, marked) && FloodFill(g, w, h, tileType, start, marked, tiles, queue)
        decreases AllTiles(w, h) - marked, |queue|
      {
        queue, tiles, marked := FloodVisit(tileType, mapFlags, start, queue, tiles, marked);
      }
      FloodDone(g, w, h, tileType, start, marked, tiles);
    }

    /** One round of the flood fill: the front of the queue is dequeued into the tiles and
        its unflagged neighbours of the same value are enqueued. */
    method FloodVisit(tileType: int, mapFlags: array2<int>, ghost start: Coord, queue: seq<Coord>, tiles: seq<Coord>,
                      ghost marked: set<Coord>)
      returns (queue': seq<Coord>, tiles': seq<Coord>, ghost marked': set<Coord>)
      requires Valid() && mapFlags != tileMap && |queue| > 0
      requires Flags(mapFlags, width, height, marked) && FloodFill(cells, width, height, tileType, start, marked, tiles, queue)
      modifies mapFlags
      ensures Flags(mapFlags, width, height, marked') && FloodFill(cells, width, height, tileType, start, marked', tiles', queue')
      ensures tiles' == tiles + [queue[0]]
      ensures queue' == queue[1..] + Expand(cells, width, height, tileType, marked, queue[0])
      ensures marked' == marked + TileSet(Expand(cells, width, height, tileType, marked, queue[0]))
      ensures AllTiles(width, height) - marked' < AllTiles(width, height) - marked ||
              (marked' == marked && |queue'| < |queue|)
    {
      ghost var g := cells;
      BfsStep(g, width, height, tileType, marked, queue, tiles);
      FloodDequeue(g, width, height, tileType, start, marked, tiles, queue);
      var tile := queue[0];
      tiles' := tiles + [tile];
      queue', marked' := EnqueueNeighbours(tile, tileType, mapFlags, queue[1..], start, marked, tiles');
      forall c, n | c in tiles' && Adjacent(c, n) && TileOf(g, width, height, tileType, n)
        ensures n in marked'
      {
        if c != tile {
          assert c in tiles;
        }
      }
      forall c | c in marked'
        ensures Reachable(g, width, height, tileType, start, c)
      {
        if c !in marked {
          ReachableStep(g, width, height, tileType, start, tile, c);
        }
      }
      if marked' != marked {
        var n :| n in marked' && n !in marked;
        assert n in AllTiles(width, height) by {
          assert TileOf(g, width, height, tileType, n) && n == Coord(n.tileX, n.tileY);
        }
      }
    }

    /** `GetRegions(tileType)`: scanning the map in order, the region of every tile of
        `tileType` that no earlier region holds. The regions are pairwise disjoint and
        together hold exactly the tiles of `tileType`. */
    method GetRegions(tileType: int) returns (regions: seq<seq<Coord>>)
      requires Valid()
      ensures forall i :: 0 <= i < |regions| ==> IsRegion(cells, width, height, tileType, regions[i])
      ensures PairwiseDisjoint(regions)
      ensures forall c :: InSome(regions, c) <==> TileOf(cells, width, height, tileType, c)
      ensures regions == ScanRegions(cells, width, height, tileType, width, 0)
    {
      var w, h := width, height;
      ghost var g := cells;
      regions := [];
      var mapFlags := new int[w, h]((_, _) => 0);
      ghost var covered: set<Coord> := {};
      for x := 0 to w
        invariant Flags(mapFlags, w, h, covered) && RegionScan(g, w, h, tileType, x, 0, regions, covered)
      {
        regions, covered := ScanRegionColumn(x, tileType, mapFlags, regions, covered);
      }
      RegionsDone(g, w, h, tileType, regions, covered);
    }

    /** Column `x` of the scan of `GetRegions`. */
    method ScanRegionColumn(x: int, tileType: int, mapFlags: array2<int>, regions: seq<seq<Coord>>, ghost covered: set<Coord>)
      returns (regions': seq<seq<Coord>>, ghost covered': set<Coord>)
      requires Valid() && mapFlags != tileMap && 0 <= x < width
      requires Flags(mapFlags, width, height, covered) && RegionScan(cells, width, height, tileType, x, 0, regions, covered)
      modifies mapFlags
      ensures Flags(mapFlags, width, height, covered') && RegionScan(cells, width, height, tileType, x + 1, 0, regions', covered')
    {
      var w, h := width, height;
      ghost var g := cells;
      regions', covered' := regions, covered;
      for y := 0 to h
        invariant Flags(mapFlags, w, h, covered') && RegionScan(g, w, h, tileType, x, y, regions', covered')
      {
        if mapFlags[x, y] == 0 && tileMap[x, y] == tileType {
          var newRegion := GetRegionTiles(x, y);
          RegionFound(g, w, h, tileType, x, y, regions', covered', newRegion);
          MarkRegion(mapFlags, newRegion, covered');
          regions' := regions' + [newRegion];
          covered' := covered' + set c | c in newRegion;
        } else {
          RegionSkipped(g, w, h, tileType, x, y, regions', covered');
        }
      }
      RegionColumnDone(g, w, h, tileType, x, regions', covered');
    }

    /** Flags every tile of the region found. */
    method MarkRegion(mapFlags: array2<int>, region: seq<Coord>, ghost covered: set<Coord>)
      requires Flags(mapFlags, width, height, covered)
      requires forall i :: 0 <= i < |region| ==> InBounds(width, height, region[i].tileX, region[i].tileY)
      modifies mapFlags
      ensures Flags(mapFlags, width, height, covered + set c | c in region)
    {
      ghost var marked := covered;
      for i := 0 to |region|
        invariant Flags(mapFlags, width, height, marked)
        invariant marked == covered + set c | c in region[..i]
      {
        mapFlags[region[i].tileX, region[i].tileY] := 1;
        marked := marked + {region[i]};
        assert region[..i + 1] == region[..i] + [region[i]];
      }
      assert region[..|region|] == region;
    }

    /** The neighbour scan of `GetRegionTiles` for one dequeued tile: every orthogonal
        neighbour on the map that holds `tileType` and is not yet flagged is flagged and
        enqueued, in scan order, as `Expand` lists them. */
    method EnqueueNeighbours(tile: Coord, tileType: int, mapFlags: array2<int>, queue: seq<Coord>,
                             ghost start: Coord, ghost marked: set<Coord>, ghost tiles: seq<Coord>)
      returns (queue': seq<Coord>, ghost marked': set<Coord>)
      requires Valid() && mapFlags != tileMap && tile in tiles
      requires Flags(mapFlags, width, height, marked) && Flood(cells, width, height, tileType, start, marked, tiles, queue)
      modifies mapFlags
      ensures Flags(mapFlags, width, height, marked') && Flood(cells, width, height, tileType, start, marked', tiles, queue')
      ensures queue' == queue + Expand(cells, width, height, tileType, marked, tile)
      ensures marked' == marked + TileSet(Expand(cells, width, height, tileType, marked, tile))
      ensures marked <= marked' && (marked' == marked ==> queue' == queue)
      ensures forall c :: c in marked' && c !in marked ==> Adjacent(tile, c)
      ensures forall n :: Adjacent(tile, n) && TileOf(cells, width, height, tileType, n) ==> n in marked'
    {
      var w, h := width, height;
      ghost var g := cells;
      queue', marked' := queue, marked;
      BlockStart(g, w, h, tileType, start, tiles, tile, queue, marked);
      for x := tile.tileX - 1 to tile.tileX + 2
        invariant Valid() && Flags(mapFlags, w, h, marked') && BlockScan(g, w, h, tileType, start, tiles, tile, x, queue, marked, queue', marked')
      {
        ColumnStart(g, w, h, tileType, start, tiles, tile, x, queue, marked, queue', marked');
        ghost var q, m := queue', marked';
        queue', marked' := ScanNeighbourColumn(tile, x, tileType, mapFlags, start, tiles, marked, queue', marked');
        ColumnDone(g, w, h, tileType, start, tiles, tile, x, queue, marked, q, m, queue', marked');
      }
      BlockDone(g, w, h, tileType, start, tiles, tile, queue, marked, queue', marked');
    }

    /** The inner loop of the neighbour scan: column `x` of the block around `tile`, probed
        against the flags `base` had when the scan of the block began. */
    method ScanNeighbourColumn(tile: Coord, x: int, tileType: int, mapFlags: array2<int>,
                               ghost start: Coord, ghost tiles: seq<Coord>, ghost base: set<Coord>,
                               queue: seq<Coord>, ghost marked: set<Coord>)
      returns (queue': seq<Coord>, ghost marked': set<Coord>)
      requires Valid() && mapFlags != tileMap && tile in tiles && tile.tileX - 1 <= x <= tile.tileX + 1
      requires base <= marked && forall c :: c in marked && c !in base ==> c.tileX < x
      requires Flags(mapFlags, width, height, marked)
      requires ColumnScan(cells, width, height, tileType, start, tiles, tile, base, x, tile.tileY - 1, queue, marked, queue, marked)
      modifies mapFlags
      ensures Flags(mapFlags, width, height, marked')
      ensures ColumnScan(cells, width, height, tileType, start, tiles, tile, base, x, tile.tileY + 2, queue, marked, queue', marked')
    {
      var w, h := width, height;
      ghost var g := cells;
      queue', marked' := queue, marked;
      for y := tile.tileY - 1 to tile.tileY + 2
        invariant Valid() && Flags(mapFlags, w, h, marked') && ColumnScan(g, w, h, tileType, start, tiles, tile, base, x, y, queue, marked, queue', marked')
      {
        ColumnProbeReady(g, w, h, tileType, start, tiles, tile, x, y, base, queue, marked, queue', marked');
        ghost var q, m := queue', marked';
        queue', marked' := ProbeNeighbour(tile, x, y, tileType, mapFlags, queue', start, marked', tiles, base);
        ColumnProbeDone(g, w, h, tileType, start, tiles, tile, base, x, y, queue, marked, q, m, queue', marked');
      }
    }

    /** One position `(x, y)` of the neighbour scan: flagged and enqueued when it is an
        orthogonal neighbour on the map that holds `tileType` and has no flag, that is, is
        not in `base`. */
    method ProbeNeighbour(tile: Coord, x: int, y: int, tileType: int, mapFlags: array2<int>, queue: seq<Coord>,
                          ghost start: Coord, ghost marked: set<Coord>, ghost tiles: seq<Coord>, ghost base: set<Coord>)
      returns (queue': seq<Coord>, ghost marked': set<Coord>)
      requires Valid() && mapFlags != tileMap && tile in tiles
      requires tile.tileX - 1 <= x <= tile.tileX + 1 && tile.tileY - 1 <= y <= tile.tileY + 1
      requires Flags(mapFlags, width, height, marked) && Flood(cells, width, height, tileType, start, marked, tiles, queue)
      requires Coord(x, y) in marked <==> Coord(x, y) in base
      modifies mapFlags
      ensures Flags(mapFlags, width, height, marked') && Flood(cells, width, height, tileType, start, marked', tiles, queue')
      ensures queue' == queue + Probe(cells, width, height, tileType, base, tile, x, y)
      ensures marked <= marked' && (marked' == marked ==> queue' == queue)
      ensures forall c :: c in marked' && c !in marked ==> c == Coord(x, y) && Adjacent(tile, c)
      ensures (x == tile.tileX || y == tile.tileY) && TileOf(cells, width, height, tileType, Coord(x, y)) ==> Coord(x, y) in marked'
    {
      queue', marked' := queue, marked;
      if IsInMapRange(x, y) && (x == tile.tileX || y == tile.tileY) {
        if mapFlags[x, y] == 0 && tileMap[x, y] == tileType {
          var n := Coord(x, y);
          assert tile in marked;
          FloodEnqueue(cells, width, height, tileType, start, marked, tiles, queue, tile, n);
          mapFlags[x, y] := 1;
          marked' := marked + {n};
          queue' := queue + [n];
        }
      }
    }

    /** `GetLine(from, to)`: the walk from `from` towards `to`, one point per major-axis step,
        `to` itself not included. */
    method GetLine(from: Coord, to: Coord) returns (line: seq<Coord>)
      ensures |line| == Shape(from, to).longest
      ensures forall i :: 0 <= i < |line| ==> line[i] == LinePoint(from, to, i)
      ensures from == to ==> line == []
    {
      line := [];
      var x := from.tileX;
      var y := from.tileY;
      var dx := to.tileX - from.tileX;
      var dy := to.tileY - from.tileY;
      var inverted := false;
      var step := Sign(dx);
      var gradientStep := Sign(dy);
      var longest := Abs(dx);
      var shortest := Abs(dy);
      if longest < shortest {
        inverted := true;
        longest := Abs(dy);
        shortest := Abs(dx);
        step := Sign(dy);
        gradientStep := Sign(dx);
      }
      ghost var s := LineShape(inverted, step, gradientStep, longest, shortest);
      var gradientAccumulation := longest / 2;
      ghost var k := 0;
      for i := 0 to longest
        invariant |line| == i
        invariant forall j :: 0 <= j < i ==> line[j] == Walk(from, s, j, MinorSteps(s, j))
        invariant 0 <= gradientAccumulation < longest || longest == 0
        invariant gradientAccumulation + k * longest == longest / 2 + i * shortest
        invariant Coord(x, y) == Walk(from, s, i, k)
      {
        LineAdvance(s, i, k, gradientAccumulation);
        WalkSteps(from, s, i, k);
        WalkSteps(from, s, i + 1, k);
        AccumulatorStep(longest, shortest, i, k, gradientAccumulation);
        line := line + [Coord(x, y)];
        if inverted {
          y := y + step;
        } else {
          x := x + step;
        }
        gradientAccumulation := gradientAccumulation + shortest;
        if gradientAccumulation >= longest {
          if inverted {
            x := x + gradientStep;
          } else {
            y := y + gradientStep;
          }
          gradientAccumulation := gradientAccumulation - longest;
          k := k + 1;
        }
      }
      assert s == Shape(from, to);
    }
  }
}
