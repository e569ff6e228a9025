/** Rooms: surviving floor regions with their edge tiles, the passages joining them and
    the "accessible from the main room" flag that spreads along passages. */
module Rooms {
  import opened Grids

  /** What the probe of neighbour `(nx, ny)` adds while `Room` collects edge tiles for `t`:
      only positions sharing a row or a column with `t` are probed, and they count if they
      hold exactly 1. */
  ghost function ProbeHit(g: Grid, w: int, h: int, t: Coord, nx: int, ny: int): nat
    requires IsGrid(g, w, h) && Interior(w, h, t)
    requires t.tileX - 1 <= nx <= t.tileX + 1 && t.tileY - 1 <= ny <= t.tileY + 1
  {
    if (nx == t.tileX || ny == t.tileY) && g[nx][ny] == 1 then 1 else 0
  }

  /** Hits among the first `k` probes of column `nx` (rows from `t.tileY - 1`). */
  ghost function ColumnHits(g: Grid, w: int, h: int, t: Coord, nx: int, k: nat): nat
    requires IsGrid(g, w, h) && Interior(w, h, t) && t.tileX - 1 <= nx <= t.tileX + 1 && k <= 3
  {
    if k == 0 then 0
    else ColumnHits(g, w, h, t, nx, k - 1) + ProbeHit(g, w, h, t, nx, t.tileY - 1 + k - 1)
  }

  /** Hits among the first `k` columns (from `t.tileX - 1`) of the 3x3 block. */
  ghost function BlockHits(g: Grid, w: int, h: int, t: Coord, k: nat): nat
    requires IsGrid(g, w, h) && Interior(w, h, t) && k <= 3
  {
    if k == 0 then 0
    else BlockHits(g, w, h, t, k - 1) + ColumnHits(g, w, h, t, t.tileX - 1 + k - 1, 3)
  }

  /** How many times `t` is recorded as an edge tile. */
  ghost function EdgeHits(g: Grid, w: int, h: int, t: Coord): nat
    requires IsGrid(g, w, h) && Interior(w, h, t)
  {
    BlockHits(g, w, h, t, 3)
  }

  function Bit(b: bool): nat { if b then 1 else 0 }

  /** `t` is recorded once per probed position holding a wall: its four orthogonal
      neighbours and itself. */
  lemma EdgeHitsAreOrthogonalWalls(g: Grid, w: int, h: int, t: Coord)
    requires IsGrid(g, w, h) && Interior(w, h, t)
    ensures EdgeHits(g, w, h, t) ==
      Bit(g[t.tileX - 1][t.tileY] == 1) + Bit(g[t.tileX][t.tileY - 1] == 1) + Bit(g[t.tileX][t.tileY] == 1) +
      Bit(g[t.tileX][t.tileY + 1] == 1) + Bit(g[t.tileX + 1][t.tileY] == 1)
  {
    ColumnOfThreeHits(g, w, h, t, t.tileX - 1);
    ColumnOfThreeHits(g, w, h, t, t.tileX);
    ColumnOfThreeHits(g, w, h, t, t.tileX + 1);
    assert BlockHits(g, w, h, t, 1) == ColumnHits(g, w, h, t, t.tileX - 1, 3);
    assert BlockHits(g, w, h, t, 2) == BlockHits(g, w, h, t, 1) + ColumnHits(g, w, h, t, t.tileX, 3);
  }

  lemma ColumnOfThreeHits(g: Grid, w: int, h: int, t: Coord, nx: int)
    requires IsGrid(g, w, h) && Interior(w, h, t) && t.tileX - 1 <= nx <= t.tileX + 1
    ensures ColumnHits(g, w, h, t, nx, 3) == ProbeHit(g, w, h, t, nx, t.tileY - 1) +
      ProbeHit(g, w, h, t, nx, t.tileY) + ProbeHit(g, w, h, t, nx, t.tileY + 1)
  {
    assert ColumnHits(g, w, h, t, nx, 1) == ProbeHit(g, w, h, t, nx, t.tileY - 1);
  }

  /** `t` or one of its orthogonal neighbours is a wall (value exactly 1). */
  ghost predicate TouchesWall(g: Grid, w: int, h: int, t: Coord)
    requires IsGrid(g, w, h) && Interior(w, h, t)
  {
    g[t.tileX - 1][t.tileY] == 1 || g[t.tileX + 1][t.tileY] == 1 || g[t.tileX][t.tileY - 1] == 1 ||
    g[t.tileX][t.tileY + 1] == 1 || g[t.tileX][t.tileY] == 1
  }

  /** `n` copies of `t`. */
  function Repeat(t: Coord, n: nat): (r: seq<Coord>)
    ensures |r| == n && forall i :: 0 <= i < n ==> r[i] == t
  {
    seq(n, _ => t)
  }

  /** The edge-tile list `Room` builds: each tile in order, repeated once per hit. */
  ghost function EdgeTilesOf(g: Grid, w: int, h: int, tiles: seq<Coord>): seq<Coord>
    requires IsGrid(g, w, h) && forall i :: 0 <= i < |tiles| ==> Interior(w, h, tiles[i])
  {
    if tiles == [] then []
    else EdgeTilesOf(g, w, h, tiles[..|tiles| - 1]) + Repeat(tiles[|tiles| - 1], EdgeHits(g, w, h, tiles[|tiles| - 1]))
  }

  /** Every edge tile is a room tile touching a wall, and every room tile touching a wall is
      an edge tile. */
  lemma {:induction false} EdgeTilesAreWallTouching(g: Grid, w: int, h: int, tiles: seq<Coord>, t: Coord)
    requires IsGrid(g, w, h) && forall i :: 0 <= i < |tiles| ==> Interior(w, h, tiles[i])
    ensures t in EdgeTilesOf(g, w, h, tiles) <==> t in tiles && TouchesWall(g, w, h, t)
  {
    if tiles != [] {
      var init, last := tiles[..|tiles| - 1], tiles[|tiles| - 1];
      assert tiles == init + [last];
      EdgeTilesAreWallTouching(g, w, h, init, t);
      EdgeHitsAreOrthogonalWalls(g, w, h, last);
      var rep := Repeat(last, EdgeHits(g, w, h, last));
      if EdgeHits(g, w, h, last) > 0 {
        assert rep[0] == last;
      }
    }
  }

  /** A tile is recorded once per wall it touches, for each time it occurs in the room. */
  lemma {:induction false} EdgeTileMultiplicity(g: Grid, w: int, h: int, tiles: seq<Coord>, t: Coord)
    requires IsGrid(g, w, h) && forall i :: 0 <= i < |tiles| ==> Interior(w, h, tiles[i])
    requires Interior(w, h, t)
    ensures multiset(EdgeTilesOf(g, w, h, tiles))[t] == multiset(tiles)[t] * EdgeHits(g, w, h, t)
  {
    if tiles != [] {
      var init, last := tiles[..|tiles| - 1], tiles[|tiles| - 1];
      assert tiles == init + [last];
      EdgeTileMultiplicity(g, w, h, init, t);
      var e := EdgeHits(g, w, h, last);
      var rep := Repeat(last, e);
      RepeatMultiset(last, e, t);
      var before := EdgeTilesOf(g, w, h, init);
      assert EdgeTilesOf(g, w, h, tiles) == before + rep;
      assert multiset(before + rep)[t] == multiset(before)[t] + multiset(rep)[t];
      var m := multiset(init)[t];
      if t == last {
        assert multiset(tiles)[t] == m + 1;
        SuccessorTimes(m, e);
      } else {
        assert multiset(tiles)[t] == m;
      }
    }
  }

  lemma SuccessorTimes(m: int, e: int)
    ensures (m + 1) * e == m * e + e
  {
  }

  lemma {:induction false} RepeatMultiset(t: Coord, n: nat, u: Coord)
    ensures multiset(Repeat(t, n))[u] == if u == t then n else 0
  {
    if n > 0 {
      RepeatMultiset(t, n - 1, u);
      assert Repeat(t, n) == Repeat(t, n - 1) + [t];
    }
  }

  /** A room. Its tiles and size are fixed when it is built; passages and the two flags change. */
  class Room {
    const tiles: seq<Coord>
    const edgeTiles: seq<Coord>
    const roomSize: int
    var connectedRooms: seq<Room>
    var isAccessibleFromMainRoom: bool
    var isMainRoom: bool

    /** `Room(roomTiles, map)`: records the tiles and collects the edge tiles by probing the
        orthogonal neighbours of each tile. The probes are not bounds-checked, so every tile
        must have all four neighbours on the map. */
    constructor (roomTiles: seq<Coord>, tileMap: array2<int>, ghost g: Grid)
      requires Mirrors(tileMap, g)
      requires forall i :: 0 <= i < |roomTiles| ==> Interior(tileMap.Length0, tileMap.Length1, roomTiles[i])
      ensures tiles == roomTiles && roomSize == |roomTiles|
      ensures edgeTiles == EdgeTilesOf(g, tileMap.Length0, tileMap.Length1, roomTiles)
      ensures connectedRooms == [] && !isAccessibleFromMainRoom && !isMainRoom
    {
      var w, h := tileMap.Length0, tileMap.Length1;
      var edges: seq<Coord> := [];
      for i := 0 to |roomTiles|
        invariant edges == EdgeTilesOf(g, w, h, roomTiles[..i])
      {
        var tile := roomTiles[i];
        ghost var before := edges;
        for x := tile.tileX - 1 to tile.tileX + 2
          invariant edges == before + Repeat(tile, BlockHits(g, w, h, tile, x - tile.tileX + 1))
        {
          ghost var column := edges;
          for y := tile.tileY - 1 to tile.tileY + 2
            invariant edges == column + Repeat(tile, ColumnHits(g, w, h, tile, x, y - tile.tileY + 1))
          {
            if x == tile.tileX || y == tile.tileY {
              if tileMap[x, y] == 1 {
                edges := edges + [tile];
              }
            }
          }
        }
        assert roomTiles[..i + 1][..i] == roomTiles[..i];
      }
      assert roomTiles[..|roomTiles|] == roomTiles;
      tiles := roomTiles;
      roomSize := |roomTiles|;
      edgeTiles := edges;
      connectedRooms := [];
      isAccessibleFromMainRoom := false;
      isMainRoom := false;
    }

    /** `IsConnected`: a passage to `otherRoom` has been recorded. */
    predicate IsConnected(otherRoom: Room)
      reads this
      ensures IsConnected(otherRoom) <==> multiset(connectedRooms)[otherRoom] > 0
    {
      otherRoom in connectedRooms
    }

    /** `CompareTo`: the order `List.Sort` uses, larger rooms first. */
    function CompareTo(otherRoom: Room): (c: int)
      ensures c < 0 <==> roomSize > otherRoom.roomSize
      ensures c > 0 <==> roomSize < otherRoom.roomSize
      ensures -1 <= c <= 1
    {
      if otherRoom.roomSize < roomSize then -1 else if otherRoom.roomSize > roomSize then 1 else 0
    }

    /** `SetAccessibleFromMainRoom`: marks this room and, recursively, every room reachable
        from it through rooms not yet marked. Every room it marks is reached from this room
        along passages. `pending` holds the rooms whose own recursion is still running;
        outside them, the set of marked rooms stays closed under passages. */
    method SetAccessibleFromMainRoom(ghost all: set<Room>, ghost pending: set<Room>)
      requires this in all && Within(all)
      modifies all`isAccessibleFromMainRoom
      ensures isAccessibleFromMainRoom
      ensures forall r :: r in all && old(r.isAccessibleFromMainRoom) ==> r.isAccessibleFromMainRoom
      ensures old(isAccessibleFromMainRoom) ==>
        forall r :: r in all ==> r.isAccessibleFromMainRoom == old(r.isAccessibleFromMainRoom)
      ensures forall r :: r in all && r.isAccessibleFromMainRoom && !old(r.isAccessibleFromMainRoom) ==>
        Reaches(Links(all), this, r)
      ensures old(ClosedExcept(all, pending)) ==> ClosedExcept(all, pending)
      decreases Inaccessible(all)
    {
      if !isAccessibleFromMainRoom {
        ghost var wasClosed := ClosedExcept(all, pending);
        ghost var links := Links(all);
        isAccessibleFromMainRoom := true;
        ReachesSelf(links, this);
        for i := 0 to |connectedRooms|
          invariant isAccessibleFromMainRoom && Links(all) == links
          invariant forall r :: r in all && old(r.isAccessibleFromMainRoom) ==> r.isAccessibleFromMainRoom
          invariant Inaccessible(all) <= old(Inaccessible(all)) - {this}
          invariant forall k :: 0 <= k < i ==> connectedRooms[k].isAccessibleFromMainRoom
          invariant wasClosed ==> ClosedExcept(all, pending + {this})
          invariant forall r :: r in all && r.isAccessibleFromMainRoom && !old(r.isAccessibleFromMainRoom) ==>
            Reaches(links, this, r)
        {
          var next := connectedRooms[i];
          label before:
          next.SetAccessibleFromMainRoom(all, pending + {this});
          forall r | r in all && r.isAccessibleFromMainRoom && !old@before(r.isAccessibleFromMainRoom)
            ensures Reaches(links, this, r)
          {
            ReachesStep(links, this, next, r);
          }
        }
      }
    }

    /** `ConnectRooms`: if either room is accessible the other is marked (with everything it
        reaches), then each room records the other. Every room newly marked is reached along
        passages from both rooms, so marks that were all reached from some room still are. */
    static method ConnectRooms(roomA: Room, roomB: Room, ghost all: set<Room>)
      requires roomA in all && roomB in all && Within(all)
      modifies all`connectedRooms, all`isAccessibleFromMainRoom
      ensures Within(all)
      ensures roomA != roomB ==>
        roomA.connectedRooms == old(roomA.connectedRooms) + [roomB] &&
        roomB.connectedRooms == old(roomB.connectedRooms) + [roomA]
      ensures roomA == roomB ==> roomA.connectedRooms == old(roomA.connectedRooms) + [roomA, roomA]
      ensures forall r :: r in all && r != roomA && r != roomB ==> r.connectedRooms == old(r.connectedRooms)
      ensures old(roomA.isAccessibleFromMainRoom) || old(roomB.isAccessibleFromMainRoom) ==>
        roomA.isAccessibleFromMainRoom && roomB.isAccessibleFromMainRoom
      ensures !old(roomA.isAccessibleFromMainRoom) && !old(roomB.isAccessibleFromMainRoom) ==>
        forall r :: r in all ==> r.isAccessibleFromMainRoom == old(r.isAccessibleFromMainRoom)
      ensures forall r :: r in all && old(r.isAccessibleFromMainRoom) ==> r.isAccessibleFromMainRoom
      ensures forall r :: r in all && r.isAccessibleFromMainRoom && !old(r.isAccessibleFromMainRoom) ==>
        Reaches(Links(all), roomA, r) && Reaches(Links(all), roomB, r)
      ensures forall m :: m in all && old(Rooted(all, m)) ==> Rooted(all, m)
      ensures old(ClosedExcept(all, {})) ==> ClosedExcept(all, {})
      ensures old(GraphOK(all)) && roomA != roomB && !old(roomA.IsConnected(roomB)) ==> GraphOK(all)
    {
      ghost var links0 := Links(all);
      ghost var marked0 := set r | r in all && r.isAccessibleFromMainRoom;
      MarkAcross(roomA, roomB, all);
      AddPassage(roomA, roomB, all);
      assert Grows(links0, Links(all));
      forall r | r in all && r.isAccessibleFromMainRoom && r !in marked0
        ensures Reaches(Links(all), roomA, r) && Reaches(Links(all), roomB, r)
      {
        if old(roomA.isAccessibleFromMainRoom) {
          PassageReaches(links0, Links(all), roomA, roomB, r);
        } else {
          PassageReaches(links0, Links(all), roomB, roomA, r);
        }
      }
      forall m | m in all && old(Rooted(all, m))
        ensures Rooted(all, m)
      {
        RootedAfterPassage(all, m, links0, marked0, roomA, roomB);
      }
    }

    /** The first half of `ConnectRooms`: if `roomA` is accessible, `roomB` is marked, else if
        `roomB` is, `roomA` is. Passages do not change, and the new marks are reached from
        the room that was already marked. */
    static method MarkAcross(roomA: Room, roomB: Room, ghost all: set<Room>)
      requires roomA in all && roomB in all && Within(all)
      modifies all`isAccessibleFromMainRoom
      ensures Links(all) == old(Links(all))
      ensures roomA.isAccessibleFromMainRoom == roomB.isAccessibleFromMainRoom
      ensures old(roomA.isAccessibleFromMainRoom) || old(roomB.isAccessibleFromMainRoom) ==>
        roomA.isAccessibleFromMainRoom && roomB.isAccessibleFromMainRoom
      ensures !old(roomA.isAccessibleFromMainRoom) && !old(roomB.isAccessibleFromMainRoom) ==>
        forall r :: r in all ==> r.isAccessibleFromMainRoom == old(r.isAccessibleFromMainRoom)
      ensures forall r :: r in all && old(r.isAccessibleFromMainRoom) ==> r.isAccessibleFromMainRoom
      ensures forall r :: r in all && r.isAccessibleFromMainRoom && !old(r.isAccessibleFromMainRoom) ==>
        if old(roomA.isAccessibleFromMainRoom) then Reaches(Links(all), roomB, r) else Reaches(Links(all), roomA, r)
      ensures old(ClosedExcept(all, {})) ==> ClosedExcept(all, {})
      ensures old(GraphOK(all)) ==> GraphOK(all)
    {
      if roomA.isAccessibleFromMainRoom {
        roomB.SetAccessibleFromMainRoom(all, {});
      } else if roomB.isAccessibleFromMainRoom {
        roomA.SetAccessibleFromMainRoom(all, {});
      }
      assert forall r :: r in all ==> r.connectedRooms == old(r.connectedRooms);
    }

    /** The second half of `ConnectRooms`: each room records the other. With both rooms
        marked alike, the marks stay closed along passages. */
    static method AddPassage(roomA: Room, roomB: Room, ghost all: set<Room>)
      requires roomA in all && roomB in all && Within(all)
      requires roomA.isAccessibleFromMainRoom == roomB.isAccessibleFromMainRoom
      modifies roomA`connectedRooms, roomB`connectedRooms
      ensures Within(all)
      ensures roomA != roomB ==>
        roomA.connectedRooms == old(roomA.connectedRooms) + [roomB] &&
        roomB.connectedRooms == old(roomB.connectedRooms) + [roomA]
      ensures roomA == roomB ==> roomA.connectedRooms == old(roomA.connectedRooms) + [roomA, roomA]
      ensures old(ClosedExcept(all, {})) ==> ClosedExcept(all, {})
      ensures old(GraphOK(all)) && roomA != roomB && !old(roomA.IsConnected(roomB)) ==> GraphOK(all)
    {
      ghost var wasOK := GraphOK(all);
      ghost var mid := roomA.connectedRooms;
      roomA.connectedRooms := roomA.connectedRooms + [roomB];
      roomB.connectedRooms := roomB.connectedRooms + [roomA];
      assert roomA == roomB ==> roomA.connectedRooms == mid + [roomA, roomA];
      if wasOK && roomA != roomB && roomB !in old(roomA.connectedRooms) {
        assert Symmetric(all) by {
          forall a, b | a in all && b in all
            ensures b in a.connectedRooms <==> a in b.connectedRooms
          {
            assert old(b in a.connectedRooms <==> a in b.connectedRooms);
          }
        }
        assert Simple(all) by {
          assert old(roomA !in roomB.connectedRooms);
          AppendNew(old(roomA.connectedRooms), roomB);
          AppendNew(old(roomB.connectedRooms), roomA);
          forall a | a in all
            ensures a !in a.connectedRooms && NoDuplicates(a.connectedRooms)
          {
            assert old(a !in a.connectedRooms && NoDuplicates(a.connectedRooms));
          }
        }
      }
    }
  }

  /** A room as its constructor leaves it: no passages, not accessible, not the main room. */
  predicate Unjoined(r: Room)
    reads r
  {
    r.connectedRooms == [] && !r.isAccessibleFromMainRoom && !r.isMainRoom
  }

  /** Every recorded passage leads to a room of `all`. */
  ghost predicate Within(all: set<Room>)
    reads all
  {
    forall r, i :: r in all && 0 <= i < |r.connectedRooms| ==> r.connectedRooms[i] in all
  }

  /** Outside `pending`, a marked room has only marked rooms as partners. */
  ghost predicate ClosedExcept(all: set<Room>, pending: set<Room>)
    reads all
  {
    forall r, q :: r in all && q in all && r !in pending && r.isAccessibleFromMainRoom && q in r.connectedRooms ==>
      q.isAccessibleFromMainRoom
  }

  /** Passages are recorded on both sides. */
  ghost predicate Symmetric(all: set<Room>)
    reads all
  {
    forall a, b :: a in all && b in all ==> (b in a.connectedRooms <==> a in b.connectedRooms)
  }

  /** No room is joined to itself and no passage is recorded twice. */
  ghost predicate Simple(all: set<Room>)
    reads all
  {
    forall a :: a in all ==> a !in a.connectedRooms && NoDuplicates(a.connectedRooms)
  }

  /** No room occurs twice in `rooms`. */
  predicate NoDuplicates(rooms: seq<Room>) {
    forall i, j :: 0 <= i < j < |rooms| ==> rooms[i] != rooms[j]
  }

  /** Appending a room not yet present keeps a list free of duplicates. */
  lemma AppendNew(rooms: seq<Room>, r: Room)
    requires NoDuplicates(rooms) && r !in rooms
    ensures NoDuplicates(rooms + [r])
  {
  }

  /** A list has no duplicates exactly when no room occurs in it more than once. */
  lemma {:induction false} NoDuplicatesCounts(s: seq<Room>)
    ensures NoDuplicates(s) <==> forall r :: multiset(s)[r] <= 1
  {
    if s != [] {
      var n := |s| - 1;
      var t := s[..n];
      assert s == t + [s[n]];
      NoDuplicatesCounts(t);
      forall r
        ensures multiset(s)[r] == multiset(t)[r] + if r == s[n] then 1 else 0
      {
      }
      if NoDuplicates(s) {
        forall i, j | 0 <= i < j < |t|
          ensures t[i] != t[j]
        {
          assert t[i] == s[i] && t[j] == s[j];
        }
        forall i | 0 <= i < n
          ensures t[i] != s[n]
        {
          assert t[i] == s[i];
        }
      }
      if forall r :: multiset(s)[r] <= 1 {
        assert forall r :: multiset(t)[r] <= 1 by {
          forall r ensures multiset(t)[r] <= 1 {
            assert multiset(s)[r] <= 1;
          }
        }
        assert multiset(t)[s[n]] == 0 by {
          assert multiset(s)[s[n]] <= 1;
        }
        forall i, j | 0 <= i < j < |s|
          ensures s[i] != s[j]
        {
          if j < n {
            assert s[i] == t[i] && s[j] == t[j];
          } else {
            assert s[i] in t;
          }
        }
      }
    }
  }

  /** Reordering a list keeps it free of duplicates. */
  lemma PermutationKeepsNoDuplicates(a: seq<Room>, b: seq<Room>)
    requires multiset(a) == multiset(b) && NoDuplicates(a)
    ensures NoDuplicates(b)
  {
    NoDuplicatesCounts(a);
    NoDuplicatesCounts(b);
  }

  /** The invariant of the room graph. */
  ghost predicate GraphOK(all: set<Room>)
    reads all
  {
    Within(all) && Symmetric(all) && Simple(all) && ClosedExcept(all, {})
  }

  /** The rooms not yet marked. */
  ghost function Inaccessible(all: set<Room>): set<Room>
    reads all
  {
    set r | r in all && !r.isAccessibleFromMainRoom
  }

  /** Rooms without passages form a sound graph, whatever their marks. */
  lemma UnjoinedGraphOK(all: set<Room>)
    requires forall r :: r in all ==> r.connectedRooms == []
    ensures GraphOK(all)
  {
  }

  /** The rooms of a list, as a set. */
  ghost function RoomSet(rooms: seq<Room>): set<Room>
  {
    set r | r in rooms
  }

  /** The passages recorded by the rooms of `all`, as a value: each room's list of partners. */
  ghost function Links(all: set<Room>): map<Room, seq<Room>>
    reads all`connectedRooms
  {
    map r | r in all :: r.connectedRooms
  }

  /** A chain of rooms, each recording a passage to the next. */
  ghost predicate RoomPath(links: map<Room, seq<Room>>, older p: seq<Room>)
  {
    |p| > 0 && (forall i :: 0 <= i < |p| ==> p[i] in links) &&
    forall i :: 0 <= i < |p| - 1 ==> p[i + 1] in links[p[i]]
  }

  /** `r` is reached from `a` along passages. */
  ghost predicate Reaches(links: map<Room, seq<Room>>, a: Room, r: Room)
  {
    exists p :: RoomPath(links, p) && p[0] == a && p[|p| - 1] == r
  }

  /** The marks of the rooms of `all`, as a value. */
  ghost function Marks(all: set<Room>): map<Room, bool>
    reads all`isAccessibleFromMainRoom
  {
    map r | r in all :: r.isAccessibleFromMainRoom
  }

  /** The rooms not marked in `marks`. */
  ghost function Unmarked(marks: map<Room, bool>): set<Room> {
    set r | r in marks && !marks[r]
  }

  /** Marking a room, and unmarking none, leaves fewer rooms unmarked. */
  lemma UnmarkedShrinks(marks0: map<Room, bool>, marks: map<Room, bool>, a: Room)
    requires marks.Keys == marks0.Keys && forall r :: r in marks0 && marks0[r] ==> marks[r]
    requires a in marks0 && !marks0[a] && marks[a]
    ensures Unmarked(marks) < Unmarked(marks0)
  {
    assert a in Unmarked(marks0) && a !in Unmarked(marks);
  }

  /** Every room marked in `marks` is reached along `links` from `main`. */
  ghost predicate RootedIn(links: map<Room, seq<Room>>, marks: map<Room, bool>, main: Room) {
    forall r :: r in marks && marks[r] ==> Reaches(links, main, r)
  }

  /** Every marked room of `all` is reached along passages from `main`. */
  ghost predicate Rooted(all: set<Room>, main: Room)
    reads all
  {
    RootedIn(Links(all), Marks(all), main)
  }

  /** Every partner list of `links` is extended, never cut, in `links'`. */
  ghost predicate Grows(links: map<Room, seq<Room>>, links': map<Room, seq<Room>>) {
    forall r :: r in links ==> r in links' && links[r] <= links'[r]
  }

  /** Every room reaches itself. */
  lemma ReachesSelf(links: map<Room, seq<Room>>, a: Room)
    requires a in links
    ensures Reaches(links, a, a)
  {
    assert RoomPath(links, [a]);
  }

  /** A passage followed by a path is a path. */
  lemma ReachesStep(links: map<Room, seq<Room>>, a: Room, b: Room, r: Room)
    requires a in links && b in links[a] && Reaches(links, b, r)
    ensures Reaches(links, a, r)
  {
    var p :| RoomPath(links, p) && p[0] == b && p[|p| - 1] == r;
    var q := [a] + p;
    assert forall i :: 0 < i < |q| ==> q[i] == p[i - 1];
    assert RoomPath(links, q);
  }

  /** Reaching is transitive: two paths joined end to end are a path. */
  lemma ReachesTrans(links: map<Room, seq<Room>>, a: Room, b: Room, r: Room)
    requires Reaches(links, a, b) && Reaches(links, b, r)
    ensures Reaches(links, a, r)
  {
    var p :| RoomPath(links, p) && p[0] == a && p[|p| - 1] == b;
    var q :| RoomPath(links, q) && q[0] == b && q[|q| - 1] == r;
    var pq := p + q[1..];
    assert forall i :: |p| <= i < |pq| ==> pq[i] == q[i - |p| + 1];
    assert forall i :: 0 <= i < |p| ==> pq[i] == p[i];
    assert RoomPath(links, pq);
  }

  /** Recording more passages loses no path. */
  lemma ReachesGrows(links: map<Room, seq<Room>>, links': map<Room, seq<Room>>, a: Room, r: Room)
    requires Grows(links, links') && Reaches(links, a, r)
    ensures Reaches(links', a, r)
  {
    var p :| RoomPath(links, p) && p[0] == a && p[|p| - 1] == r;
    forall i | 0 <= i < |p| - 1
      ensures p[i + 1] in links'[p[i]]
    {
      var k :| 0 <= k < |links[p[i]]| && links[p[i]][k] == p[i + 1];
      assert links'[p[i]][k] == p[i + 1];
    }
    assert RoomPath(links', p);
  }

  /** Once `a` and `b` record each other, whatever `b` reached before is reached from both. */
  lemma PassageReaches(links0: map<Room, seq<Room>>, links: map<Room, seq<Room>>, a: Room, b: Room, r: Room)
    requires Grows(links0, links) && Reaches(links0, b, r)
    requires a in links && b in links && b in links[a]
    ensures Reaches(links, a, r) && Reaches(links, b, r)
  {
    ReachesGrows(links0, links, b, r);
    ReachesStep(links, a, b, r);
  }

  /** In a closed graph, every room reachable through passages from a marked room is marked. */
  lemma {:induction false} MarkSpreadsAlongPassages(all: set<Room>, p: seq<Room>)
    requires ClosedExcept(all, {}) && RoomPath(Links(all), p) && p[0].isAccessibleFromMainRoom
    ensures forall i :: 0 <= i < |p| ==> p[i].isAccessibleFromMainRoom
  {
    if |p| > 1 {
      MarkSpreadsAlongPassages(all, p[..|p| - 1]);
      assert p[|p| - 2].isAccessibleFromMainRoom;
    }
  }

  /** In a closed graph whose marks are all reached from the marked room `main`, a room is
      marked exactly when it is reached from `main`. */
  lemma MarkedIffReached(all: set<Room>, main: Room)
    requires GraphOK(all) && main in all && main.isAccessibleFromMainRoom && Rooted(all, main)
    ensures forall r :: r in all ==> (r.isAccessibleFromMainRoom <==> Reaches(Links(all), main, r))
  {
    forall r | r in all && Reaches(Links(all), main, r)
      ensures r.isAccessibleFromMainRoom
    {
      var p :| RoomPath(Links(all), p) && p[0] == main && p[|p| - 1] == r;
      MarkSpreadsAlongPassages(all, p);
    }
  }

  /** After a passage between `a` and `b` that carries marks only from one of them, the marks
      are still all reached from `main`. `links0` and `marked0` are the passages and the
      marked rooms before it. */
  lemma RootedAfterPassage(all: set<Room>, main: Room, links0: map<Room, seq<Room>>, marked0: set<Room>, a: Room, b: Room)
    requires forall r :: r in marked0 ==> Reaches(links0, main, r)
    requires Grows(links0, Links(all))
    requires forall r :: r in all && r.isAccessibleFromMainRoom && r !in marked0 ==>
      Reaches(Links(all), a, r) && Reaches(Links(all), b, r)
    requires a !in marked0 && b !in marked0 ==> forall r :: r in all && r.isAccessibleFromMainRoom ==> r in marked0
    ensures Rooted(all, main)
  {
    forall r | r in all && r.isAccessibleFromMainRoom
      ensures Reaches(Links(all), main, r)
    {
      if r in marked0 {
        ReachesGrows(links0, Links(all), main, r);
      } else if a in marked0 {
        ReachesGrows(links0, Links(all), main, a);
        ReachesTrans(Links(all), main, a, r);
      } else {
        ReachesGrows(links0, Links(all), main, b);
        ReachesTrans(Links(all), main, b, r);
      }
    }
  }

  /** With passages recorded on both sides, being connected is symmetric. */
  lemma ConnectedSymmetric(all: set<Room>, a: Room, b: Room)
    requires Symmetric(all) && a in all && b in all
    ensures a.IsConnected(b) <==> b.IsConnected(a)
  {
  }

  /** In a closed, symmetric graph no passage joins a marked and an unmarked room. */
  lemma NoPassageAcrossMark(all: set<Room>, a: Room, b: Room)
    requires GraphOK(all) && a in all && b in all
    requires a.isAccessibleFromMainRoom && !b.isAccessibleFromMainRoom
    ensures !a.IsConnected(b) && !b.IsConnected(a)
  {
  }

  /** The order `CompareTo` induces is antisymmetric. */
  lemma CompareToAntisymmetric(a: Room, b: Room)
    ensures a.CompareTo(b) == -b.CompareTo(a)
  {
  }

  /** Room sizes never increase along the sequence: no room compares after a later one. */
  predicate SortedBySize(rooms: seq<Room>) {
    forall i, j :: 0 <= i < j < |rooms| ==> rooms[i].roomSize >= rooms[j].roomSize
  }

  /** In a sorted list `CompareTo` never puts an earlier room after a later one. */
  lemma SortedAgreesWithCompareTo(rooms: seq<Room>, i: int, j: int)
    requires SortedBySize(rooms) && 0 <= i < j < |rooms|
    ensures rooms[i].CompareTo(rooms[j]) <= 0
  {
  }

  /** `List.Sort` with `CompareTo`: the same rooms, largest first. */
  function SortBySize(rooms: seq<Room>): (r: seq<Room>)
    ensures multiset(r) == multiset(rooms) && SortedBySize(r)
  {
    if rooms == [] then []
    else
      assert rooms == [rooms[0]] + rooms[1..];
      InsertBySize(rooms[0], SortBySize(rooms[1..]))
  }

  /** Places `room` before the first smaller room of `sorted`. */
  function InsertBySize(room: Room, sorted: seq<Room>): (r: seq<Room>)
    requires SortedBySize(sorted)
    ensures multiset(r) == multiset(sorted) + multiset{room} && SortedBySize(r)
    ensures r[0] == room || (sorted != [] && r[0] == sorted[0])
  {
    if sorted == [] || room.roomSize >= sorted[0].roomSize then
      ConsSorted(room, sorted);
      [room] + sorted
    else
      var rest := InsertBySize(room, sorted[1..]);
      assert sorted == [sorted[0]] + sorted[1..];
      ConsSorted(sorted[0], rest);
      [sorted[0]] + rest
  }

  /** A room no smaller than the head of a sorted list can go in front of it. */
  lemma ConsSorted(room: Room, sorted: seq<Room>)
    requires SortedBySize(sorted) && (sorted != [] ==> room.roomSize >= sorted[0].roomSize)
    ensures SortedBySize([room] + sorted)
  {
  }
}
