/** The closest-pair search of `ConnectClosestRooms`: over rooms of list A and rooms of list B
    that may still be joined, the pair of edge tiles at the least squared distance, the first
    such pair in scan order winning ties. */
module Closest {
  import opened Grids
  import opened Rooms

  /** Squared distance between two tiles, the integer form of the `Mathf.Pow` sum. */
  function SqDistance(a: Coord, b: Coord): (d: int)
    ensures d >= 0
    ensures d == 0 <==> a == b
  {
    (a.tileX - b.tileX) * (a.tileX - b.tileX) + (a.tileY - b.tileY) * (a.tileY - b.tileY)
  }

  /** The best pair found so far: `bestRoomA`, `bestRoomB`, `bestTileA`, `bestTileB` and
      `bestDistance`, present once `possibleConnectionFound` is set. */
  datatype Candidate = Candidate(roomA: Room, roomB: Room, tileA: Coord, tileB: Coord, distance: int)

  datatype Option<T> = None | Some(value: T)

  /** `a` and `b` may still be joined: distinct and not yet connected. */
  predicate Eligible(a: Room, b: Room)
    reads a
  {
    a != b && !a.IsConnected(b)
  }

  /** `c` pairs an edge tile of a room of `listA` with an edge tile of a room of `listB` that
      it may still be joined to, at their squared distance. */
  predicate Genuine(c: Candidate, listA: seq<Room>, listB: seq<Room>)
    reads c.roomA
  {
    c.roomA in listA && c.roomB in listB && Eligible(c.roomA, c.roomB) &&
    c.tileA in c.roomA.edgeTiles && c.tileB in c.roomB.edgeTiles && c.distance == SqDistance(c.tileA, c.tileB)
  }

  /** Moving from `best` to `next` never loses the candidate and never gets worse, and
      replaces it only by a strictly closer one. */
  predicate Better(best: Option<Candidate>, next: Option<Candidate>) {
    (best.Some? ==> next.Some? && next.value.distance <= best.value.distance) &&
    (best.Some? && next != best ==> next.value.distance < best.value.distance)
  }

  /** If `a` may be joined to `b`, every pair of their edge tiles is at least `d` apart. */
  predicate AtLeast(d: int, a: Room, b: Room)
    reads a
  {
    Eligible(a, b) ==> forall p, q :: 0 <= p < |a.edgeTiles| && 0 <= q < |b.edgeTiles| ==>
      d <= SqDistance(a.edgeTiles[p], b.edgeTiles[q])
  }

  /** If `a` may be joined to `b`, one of them has no edge tiles. */
  predicate Unpairable(a: Room, b: Room)
    reads a
  {
    Eligible(a, b) ==> a.edgeTiles == [] || b.edgeTiles == []
  }

  /** Every eligible pair of edge tiles taken from `listA` and `listB` is at least `d` apart. */
  predicate Nearest(d: int, listA: seq<Room>, listB: seq<Room>)
    reads set a | a in listA
  {
    forall i, j :: 0 <= i < |listA| && 0 <= j < |listB| ==> AtLeast(d, listA[i], listB[j])
  }

  /** No room of `listA` may be joined to a room of `listB` with edge tiles on both sides. */
  predicate NoPair(listA: seq<Room>, listB: seq<Room>)
    reads set a | a in listA
  {
    forall i, j :: 0 <= i < |listA| && 0 <= j < |listB| ==> Unpairable(listA[i], listB[j])
  }

  /** The innermost loop: `tileA` against every edge tile of `roomB`. */
  method ScanTilesB(roomA: Room, roomB: Room, tileA: Coord, best: Option<Candidate>) returns (next: Option<Candidate>)
    ensures Better(best, next)
    ensures next == best || (next.Some? && next.value.roomA == roomA && next.value.roomB == roomB &&
      next.value.tileA == tileA && next.value.tileB in roomB.edgeTiles && next.value.distance == SqDistance(tileA, next.value.tileB))
    ensures next.None? <==> best.None? && roomB.edgeTiles == []
    ensures next.Some? ==> forall q :: 0 <= q < |roomB.edgeTiles| ==> next.value.distance <= SqDistance(tileA, roomB.edgeTiles[q])
  {
    next := best;
    for q := 0 to |roomB.edgeTiles|
      invariant Better(best, next)
      invariant next == best || (next.Some? && next.value.roomA == roomA && next.value.roomB == roomB &&
        next.value.tileA == tileA && next.value.tileB in roomB.edgeTiles && next.value.distance == SqDistance(tileA, next.value.tileB))
      invariant next.None? <==> best.None? && q == 0
      invariant next.Some? ==> forall q' :: 0 <= q' < q ==> next.value.distance <= SqDistance(tileA, roomB.edgeTiles[q'])
    {
      var tileB := roomB.edgeTiles[q];
      var distanceBetweenRooms := SqDistance(tileA, tileB);
      if next.None? || distanceBetweenRooms < next.value.distance {
        next := Some(Candidate(roomA, roomB, tileA, tileB, distanceBetweenRooms));
      }
    }
  }

  /** The two tile loops: every edge tile of `roomA` against every edge tile of `roomB`. */
  method ScanTiles(roomA: Room, roomB: Room, best: Option<Candidate>) returns (next: Option<Candidate>)
    ensures Better(best, next)
    ensures next == best || (next.Some? && next.value.roomA == roomA && next.value.roomB == roomB &&
      next.value.tileA in roomA.edgeTiles && next.value.tileB in roomB.edgeTiles &&
      next.value.distance == SqDistance(next.value.tileA, next.value.tileB))
    ensures next.None? <==> best.None? && (roomA.edgeTiles == [] || roomB.edgeTiles == [])
    ensures next.Some? ==> forall p, q :: 0 <= p < |roomA.edgeTiles| && 0 <= q < |roomB.edgeTiles| ==>
      next.value.distance <= SqDistance(roomA.edgeTiles[p], roomB.edgeTiles[q])
  {
    next := best;
    for p := 0 to |roomA.edgeTiles|
      invariant Better(best, next)
      invariant next == best || (next.Some? && next.value.roomA == roomA && next.value.roomB == roomB &&
        next.value.tileA in roomA.edgeTiles && next.value.tileB in roomB.edgeTiles &&
        next.value.distance == SqDistance(next.value.tileA, next.value.tileB))
      invariant next.None? <==> best.None? && (p == 0 || roomB.edgeTiles == [])
      invariant next.Some? ==> forall p', q :: 0 <= p' < p && 0 <= q < |roomB.edgeTiles| ==>
        next.value.distance <= SqDistance(roomA.edgeTiles[p'], roomB.edgeTiles[q])
    {
      next := ScanTilesB(roomA, roomB, roomA.edgeTiles[p], next);
    }
  }

  /** The `roomB` loop for one `roomA`: rooms it cannot be joined to are skipped. */
  method ScanRooms(roomA: Room, listB: seq<Room>, best: Option<Candidate>) returns (next: Option<Candidate>)
    ensures Better(best, next)
    ensures next == best || Genuine(next.value, [roomA], listB)
    ensures next.None? <==> best.None? && forall j :: 0 <= j < |listB| ==> Unpairable(roomA, listB[j])
    ensures next.Some? ==> forall j :: 0 <= j < |listB| ==> AtLeast(next.value.distance, roomA, listB[j])
  {
    next := best;
    for j := 0 to |listB|
      invariant Better(best, next)
      invariant next == best || Genuine(next.value, [roomA], listB)
      invariant next.None? <==> best.None? && forall j' :: 0 <= j' < j ==> Unpairable(roomA, listB[j'])
      invariant next.Some? ==> forall j' :: 0 <= j' < j ==> AtLeast(next.value.distance, roomA, listB[j'])
    {
      var roomB := listB[j];
      if roomA != roomB && !roomA.IsConnected(roomB) {
        next := ScanTiles(roomA, roomB, next);
      }
    }
  }

  /** The `roomA` loop of the forced phase: one search across every pair of `listA` and
      `listB`, never reset between rooms of `listA`. */
  method ScanAll(listA: seq<Room>, listB: seq<Room>) returns (best: Option<Candidate>)
    ensures best.Some? ==> Genuine(best.value, listA, listB) && Nearest(best.value.distance, listA, listB)
    ensures best.None? <==> NoPair(listA, listB)
  {
    best := None;
    for i := 0 to |listA|
      invariant best.Some? ==> Genuine(best.value, listA, listB)
      invariant best.Some? ==> forall i', j :: 0 <= i' < i && 0 <= j < |listB| ==> AtLeast(best.value.distance, listA[i'], listB[j])
      invariant best.None? <==> forall i', j :: 0 <= i' < i && 0 <= j < |listB| ==> Unpairable(listA[i'], listB[j])
    {
      best := ScanRooms(listA[i], listB, best);
    }
  }

  /** `rooms[i]` has edge tiles and so does some other room of `rooms`: the greedy phase
      can find it a partner. */
  predicate HasPartner(rooms: seq<Room>, i: int)
    requires 0 <= i < |rooms|
  {
    rooms[i].edgeTiles != [] && exists j :: 0 <= j < |rooms| && rooms[j] != rooms[i] && rooms[j].edgeTiles != []
  }

  /** The rooms of `rooms` whose mark is `marked`, in the order of `rooms`. */
  ghost function WithAccess(rooms: seq<Room>, marked: bool): seq<Room>
    reads set r | r in rooms
  {
    if rooms == [] then []
    else
      var last := rooms[|rooms| - 1];
      WithAccess(rooms[..|rooms| - 1], marked) + (if last.isAccessibleFromMainRoom == marked then [last] else [])
  }

  /** The lists of the forced phase: list A holds the rooms not yet accessible, list B the
      accessible ones, each in the order of `rooms`. */
  method SplitByAccess(rooms: seq<Room>) returns (listA: seq<Room>, listB: seq<Room>)
    ensures forall r :: r in listA <==> r in rooms && !r.isAccessibleFromMainRoom
    ensures forall r :: r in listB <==> r in rooms && r.isAccessibleFromMainRoom
    ensures |listA| + |listB| == |rooms|
    ensures listA == WithAccess(rooms, false) && listB == WithAccess(rooms, true)
  {
    listA, listB := [], [];
    for i := 0 to |rooms|
      invariant forall r :: r in listA <==> r in rooms[..i] && !r.isAccessibleFromMainRoom
      invariant forall r :: r in listB <==> r in rooms[..i] && r.isAccessibleFromMainRoom
      invariant |listA| + |listB| == i
      invariant listA == WithAccess(rooms[..i], false) && listB == WithAccess(rooms[..i], true)
    {
      var room := rooms[i];
      assert rooms[..i + 1] == rooms[..i] + [room];
      if room.isAccessibleFromMainRoom {
        listB := listB + [room];
      } else {
        listA := listA + [room];
      }
    }
    assert rooms[..|rooms|] == rooms;
  }

  /** The condition the forced phase stops in: every room not accessible, or every
      accessible room it could be joined to, has no edge tiles. */
  predicate Settled(rooms: seq<Room>)
    reads set r | r in rooms
  {
    forall i, j ::
      (0 <= i < |rooms| && 0 <= j < |rooms| && !rooms[i].isAccessibleFromMainRoom && rooms[j].isAccessibleFromMainRoom) ==>
      rooms[i].edgeTiles == [] || rooms[j].edgeTiles == []
  }

  /** When the search across the two lists finds nothing, the rooms are settled: in a sound
      room graph, an inaccessible room and an accessible one are never joined, so only
      missing edge tiles keep them apart. */
  lemma SettledWhenNoPair(rooms: seq<Room>, listA: seq<Room>, listB: seq<Room>, all: set<Room>)
    requires GraphOK(all) && forall r :: r in rooms ==> r in all
    requires forall r :: r in listA <==> r in rooms && !r.isAccessibleFromMainRoom
    requires forall r :: r in listB <==> r in rooms && r.isAccessibleFromMainRoom
    requires NoPair(listA, listB)
    ensures Settled(rooms)
  {
    forall i, j | 0 <= i < |rooms| && 0 <= j < |rooms| &&
      !rooms[i].isAccessibleFromMainRoom && rooms[j].isAccessibleFromMainRoom
      ensures rooms[i].edgeTiles == [] || rooms[j].edgeTiles == []
    {
      var a, b := rooms[i], rooms[j];
      NoPassageAcrossMark(all, b, a);
      var ia :| 0 <= ia < |listA| && listA[ia] == a;
      var jb :| 0 <= jb < |listB| && listB[jb] == b;
      assert Unpairable(listA[ia], listB[jb]);
    }
  }
}
