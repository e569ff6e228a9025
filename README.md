# Cave map generator and object pool, in Dafny

This project models two parts of a Unity brick-breaker game.

**The cave map generator** (`MapGenerator`, `Room`, `Coord`) builds a level in these steps:

1. It fills an `int[,]` map at random from the level's seed: walls all round the border, and each interior tile a wall when its draw is below the fill percentage.
2. It smooths the map five times in place with the 4-5 neighbour rule.
3. It refills every wall region and floor region smaller than 50 tiles with fresh draws in `[minValue, maxValue)`.
4. It turns the remaining floor regions into rooms.
5. It sorts the rooms largest first and makes the largest one the main room.
6. It joins the rooms with carved passages:
   - first each room without a passage to its closest room;
   - then, round after round, the closest pair of an inaccessible and an accessible room.
7. It wraps the map in a ring of random tiles.

**The object pool** (`ObjectPool<T>`) keeps two collections:

- a first-in first-out queue of inactive objects;
- the list of objects in the game.

`Get` reuses the front of the queue or makes a new object. `Return` deactivates an object, removes it from the list and enqueues it.

## Modules

| Module | What it holds |
|---|---|
| `Grids` | `Coord`, and the map as a ghost value `Grid` (`seq<seq<int>>`). A ghost field `cells` mirrors the generator's `tileMap` array. |
| `Smoothing` | The wall count and the smoothing rule. One pass is `SmoothPass`, defined in place through `SweepTo`: each tile reads neighbours that the sweep has already rewritten. |
| `Raster` | `GetLine` in closed form (`LinePoint`), and the discs that `DrawCircle` clears. |
| `Regions` | Reachability through orthogonal neighbours of one value. `IsRegion` is what a flood fill must return. |
| `Pruning` | `Refill` and `Prune`: the map and the generator after the small regions are refilled in order. |
| `Rng` | `System.Random` as a stream of raw samples. |
| `Rooms` | The `Room` class, its edge tiles, passages and accessibility marks, and the sort order. |
| `Closest` | The closest-pair scans of `ConnectClosestRooms` and the "settled" condition they end in. |
| `MapGenerators` | The `MapGenerator` class. The map is an `array2<int>` changed in place, and every operation is a method proved against the functions above. |
| `ObjectPools` | The `ObjectPool` class, with the queue and the list as `seq` fields. The `Contents` functions are what each operation leaves. |

### Main results

**Connectivity.** After `ConnectClosestRooms`, a room is accessible exactly when a chain of passages leads to it from the main room (`Rooms.Reaches` over the rooms' partner lists). This holds on any input (`JoinRooms`, `ProcessMap`, `GenerateMap`).

Now assume the map holds only floors and walls, and the refill draws floors and walls too (`0 <= minValue <= 1 && minValue <= maxValue <= 2`). If generation succeeds, then:

- every room has an edge tile;
- every room is accessible, and so is reached along passages from the main room.

**The passages.** `ConnectClosestRooms` returns the ghost log of the passages it made, in order. The log accounts for every change:

- each passage runs between edge tiles of two distinct rooms, at their squared distance;
- each room's list grows by exactly its partners in the log;
- the map is the old one cleared exactly along the passages.

Each passage is the closest pair of its round:

- in the greedy phase, the closest pair from the room in hand (`PickGreedy`);
- in the forced phase, the closest pair from an inaccessible room to an accessible one (`PickForced`).

**The stages.** `GenerateMap` returns the filled and the smoothed map as ghost values, plus a ghost `Stages` record of what `ProcessMap` made of the smoothed map:

- the wall regions;
- the map with the small wall regions refilled;
- the floor regions;
- the map with the small floor regions refilled;
- the surviving rooms;
- the passages.

`PrunedFrom` ties each stage to the one before. `JoinedFrom` ties the returned rooms and the final map to the pruned map.

**Soundness, on any input:**

- the room graph stays symmetric and simple;
- marks are only added, and they are closed along passages;
- every mark is reached from the main room.

## Model

| member | source | states |
|---|---|---|
| Grids.Put | Assets/Scripts/MapGenerators/MapGenerator.cs:178 | writing one tile changes that tile and no other |
| Grids.Zeros | Assets/Scripts/MapGenerators/MapGenerator.cs:122 | a new `int[w,h]` holds 0 everywhere |
| Rng.Draw | Assets/Scripts/MapGenerators/MapGenerator.cs:178 | `Next(lo, hi)` lies in `[lo, hi)`, and is `lo` when `lo == hi` |
| Rng.Random.constructor | Assets/Scripts/MapGenerators/MapGenerator.cs:169 | a new generator starts at the first sample of its seed's stream |
| Rng.Random.Next | Assets/Scripts/MapGenerators/MapGenerator.cs:178 | each call consumes exactly one sample, and returns that sample scaled into the range |
| Smoothing.WallCountIsEightNeighbours | Assets/Scripts/MapGenerators/MapGenerator.cs:381-402 | the wall count sums the eight neighbours and leaves out the tile itself |
| Smoothing.WallCountRange | Assets/Scripts/MapGenerators/MapGenerator.cs:381-402 | on a map of floors and walls the count lies in 0..8 |
| Smoothing.BorderTileWallCount | Assets/Scripts/MapGenerators/MapGenerator.cs:381-402 | a border tile of a walled map sees at least 5 walls, counting off-map positions as walls |
| Smoothing.SmoothRuleBinary | Assets/Scripts/MapGenerators/MapGenerator.cs:367-374 | on a floor or a wall the rule gives a floor or a wall; a wall exactly when more than four neighbours are walls, or exactly four and the tile already is a wall |
| Smoothing.SmoothRuleMonotone | Assets/Scripts/MapGenerators/MapGenerator.cs:367-374 | more walls around, or a wall in place of a floor, never turn the result from a wall into a floor |
| Smoothing.PassIsInPlace | Assets/Scripts/MapGenerators/MapGenerator.cs:359-378 | each tile of a pass follows the rule as applied to the map partly rewritten by the sweep |
| Smoothing.SweepKeepsUnvisited | Assets/Scripts/MapGenerators/MapGenerator.cs:359-378 | the sweep has not touched tiles ahead of it |
| Smoothing.SweepKeepsVisited | Assets/Scripts/MapGenerators/MapGenerator.cs:359-378 | a tile behind the sweep keeps its new value for the rest of the pass |
| Smoothing.SweepKeepsBinaryBorder | Assets/Scripts/MapGenerators/MapGenerator.cs:359-378 | a pass keeps the map made of floors and walls, with walls all round the border |
| Smoothing.SmoothTimesKeepsBinaryBorder | Assets/Scripts/MapGenerators/MapGenerator.cs:129-134 | so do the five passes |
| Raster.Abs | Assets/Scripts/MapGenerators/MapGenerator.cs:485-486 | `Mathf.Abs`: the magnitude, of either sign |
| Raster.Sign | Assets/Scripts/MapGenerators/MapGenerator.cs:482-483 | `Math.Sign`: times the magnitude it gives back the number, and it is 0 only for 0 |
| Raster.Shape | Assets/Scripts/MapGenerators/MapGenerator.cs:478-496 | the major axis is the longer one (x on ties), and the step sizes times the axis lengths give the displacement |
| Raster.LineStartsAtFrom | Assets/Scripts/MapGenerators/MapGenerator.cs:475-476 | the walk starts at `from` |
| Raster.LineReachesTo | Assets/Scripts/MapGenerators/MapGenerator.cs:498-525 | one step past the last point lands exactly on `to` |
| Raster.LineStep | Assets/Scripts/MapGenerators/MapGenerator.cs:499-525 | each step moves one unit along the major axis, and zero or one along the minor axis |
| Raster.WalkSteps | Assets/Scripts/MapGenerators/MapGenerator.cs:499-525 | one more major step moves one `step` along the major axis only; one more minor step moves one `gradientStep` along the minor axis only |
| Raster.MinorStepsStep | Assets/Scripts/MapGenerators/MapGenerator.cs:513-522 | from one point to the next the count of minor steps grows by zero or one |
| Raster.AccumulatorStep | Assets/Scripts/MapGenerators/MapGenerator.cs:513-522 | adding `shortest` to the accumulator, and taking `longest` off when it overflows together with one more minor step, keeps the accumulator identity |
| Raster.LineAdvance | Assets/Scripts/MapGenerators/MapGenerator.cs:498-525 | while the gradient accumulator stays below the longer axis length, the minor steps taken so far are the closed-form count |
| Raster.LastPointNextToTo | Assets/Scripts/MapGenerators/MapGenerator.cs:499-527 | the last point is within one tile of `to`, which the line leaves out |
| Raster.DiscIsEuclidean | Assets/Scripts/MapGenerators/MapGenerator.cs:318-335 | for `r >= 0` the square loop bounds cut nothing off the Euclidean disc |
| Raster.NegativeRadiusEmpty | Assets/Scripts/MapGenerators/MapGenerator.cs:320-322 | a negative radius clears nothing |
| Raster.NeighbourInDisc | Assets/Scripts/MapGenerators/MapGenerator.cs:318-335 | a disc of radius at least 2 covers the 3x3 block around its centre |
| Raster.NearLineExtend | Assets/Scripts/MapGenerators/MapGenerator.cs:310-313 | stamping one more line point adds exactly its disc |
| Raster.NearLineIsCarved | Assets/Scripts/MapGenerators/MapGenerator.cs:306-315 | the discs along `GetLine`'s list are the discs along the closed-form walk |
| Raster.PassageClearsEnds | Assets/Scripts/MapGenerators/MapGenerator.cs:306-315 | a passage of radius at least 2 clears both end tiles, although `to` is not on the line |
| Regions.NeighboursAreAdjacent | Assets/Scripts/MapGenerators/MapGenerator.cs:451-455 | the probe inside the 3x3 block that keeps positions sharing a row or a column with the tile selects exactly the four orthogonal neighbours |
| Regions.ReachableSelf | Assets/Scripts/MapGenerators/MapGenerator.cs:441-443 | the start tile reaches itself |
| Regions.ReachableStep | Assets/Scripts/MapGenerators/MapGenerator.cs:451-464 | reachability extends to an adjacent tile of the same value |
| Regions.ClosedHoldsPath | Assets/Scripts/MapGenerators/MapGenerator.cs:445-466 | a walk from inside a set closed under neighbours stays inside it |
| Regions.ReversePath | Assets/Scripts/MapGenerators/MapGenerator.cs:445-466 | reversing a walk gives a walk between the same ends |
| Regions.ReachableSymmetric | Assets/Scripts/MapGenerators/MapGenerator.cs:445-466 | reachability is symmetric |
| Regions.ClosedHoldsReachable | Assets/Scripts/MapGenerators/MapGenerator.cs:445-466 | a closed set holds everything its members reach |
| Regions.RegionIsReachableSet | Assets/Scripts/MapGenerators/MapGenerator.cs:435-468 | a region holds exactly the tiles its start reaches |
| Regions.RegionsOverlapEqual | Assets/Scripts/MapGenerators/MapGenerator.cs:410-432 | two regions that share a tile hold the same tiles |
| Regions.InSomeAppend | Assets/Scripts/MapGenerators/MapGenerator.cs:422 | a tile is in some region of the extended list iff it is in an earlier one or in the new one |
| Regions.AddRegion | Assets/Scripts/MapGenerators/MapGenerator.cs:419-427 | a new region starting at an uncovered tile keeps the found regions disjoint, and covers what they cover plus its own tiles |
| Pruning.RefillFrame | Assets/Scripts/MapGenerators/MapGenerator.cs:176-179 | refilling a region leaves tiles outside it unchanged |
| Pruning.RefillWrites | Assets/Scripts/MapGenerators/MapGenerator.cs:176-179 | the `i`-th tile of the region gets the `i`-th draw of the refill |
| Pruning.Prune | Assets/Scripts/MapGenerators/MapGenerator.cs:172-182 | pruning never rewinds the generator |
| Pruning.PruneStep | Assets/Scripts/MapGenerators/MapGenerator.cs:172-182 | one more region is refilled from the current generator position when it is small, and is left alone otherwise |
| Pruning.PruneKeeps | Assets/Scripts/MapGenerators/MapGenerator.cs:172-199 | tiles in no small region keep their value |
| Pruning.PruneRefills | Assets/Scripts/MapGenerators/MapGenerator.cs:172-199 | every tile of a small region ends up holding a value drawn in range |
| Pruning.PruneKeepsOthers | Assets/Scripts/MapGenerators/MapGenerator.cs:172-199 | pruning regions of one value never changes a tile of another value |
| Pruning.PruneBinary | Assets/Scripts/MapGenerators/MapGenerator.cs:172-199 | with draws in `{0, 1}`, a map of floors and walls stays one |
| Pruning.LargeAreLarge | Assets/Scripts/MapGenerators/MapGenerator.cs:190-204 | the surviving regions are the input regions of at least the threshold size |
| Pruning.LargeStep | Assets/Scripts/MapGenerators/MapGenerator.cs:190-204 | a region survives exactly when it is not below the threshold |
| Pruning.RegionHasEdgeTile | Assets/Scripts/MapGenerators/MapGenerator.cs:33-56 | an interior floor region of a map of floors and walls always has an edge tile, on any map that keeps the walls |
| Pruning.LaterRoomHasEdgeTile | Assets/Scripts/MapGenerators/MapGenerator.cs:190-204 | so a room made after earlier floor regions were refilled still has an edge tile |
| Pruning.RegionsOnMap | Assets/Scripts/MapGenerators/MapGenerator.cs:410-432 | the regions found are non-empty, lie on the map and repeat no tile |
| Rooms.EdgeHitsAreOrthogonalWalls | Assets/Scripts/MapGenerators/MapGenerator.cs:42-53 | the probes of one tile inspect the tile itself and its four orthogonal neighbours |
| Rooms.EdgeTilesAreWallTouching | Assets/Scripts/MapGenerators/MapGenerator.cs:39-55 | a tile is an edge tile iff it is a room tile that touches a wall |
| Rooms.EdgeTileMultiplicity | Assets/Scripts/MapGenerators/MapGenerator.cs:39-55 | each room tile is listed once per wall it touches. It is not deduplicated. |
| Rooms.Room.constructor | Assets/Scripts/MapGenerators/MapGenerator.cs:33-56 | the room holds its tiles, its size and its edge tiles, and has no passages and no marks yet |
| Rooms.Room.CompareTo | Assets/Scripts/MapGenerators/MapGenerator.cs:94-97 | negative iff this room is larger, positive iff it is smaller |
| Rooms.CompareToAntisymmetric | Assets/Scripts/MapGenerators/MapGenerator.cs:94-97 | swapping the rooms negates the comparison |
| Rooms.Room.SetAccessibleFromMainRoom | Assets/Scripts/MapGenerators/MapGenerator.cs:75-85 | the room becomes accessible, and no mark is removed. An accessible room changes nothing. Every room newly marked is reached from this room along passages. The marks stay closed along passages. |
| Rooms.Room.ConnectRooms | Assets/Scripts/MapGenerators/MapGenerator.cs:59-72 | each room is appended to the other's list (a room joined to itself gets listed twice), and the other lists are unchanged. If either room was accessible, both become so; otherwise no mark changes. Every room newly marked is reached along passages from both rooms, so marks that were all reached from some room still are. Closure and the graph invariant are kept. |
| Rooms.Room.MarkAcross | Assets/Scripts/MapGenerators/MapGenerator.cs:61-68 | the marking half of `ConnectRooms`: the unmarked room of the two is marked when the other is, passages are unchanged, and every new mark is reached from the room that was already marked |
| Rooms.Room.AddPassage | Assets/Scripts/MapGenerators/MapGenerator.cs:70-71 | each room is appended to the other's list; closure is kept, and so is the graph invariant for two distinct rooms not yet joined |
| Rooms.MarkSpreadsAlongPassages | Assets/Scripts/MapGenerators/MapGenerator.cs:75-85 | with closed marks, every room on a passage path from an accessible room is accessible |
| Rooms.MarkedIffReached | Assets/Scripts/MapGenerators/MapGenerator.cs:75-85 | when the marks are closed along passages and all reached from the marked room `main`, a room is marked exactly when it is reached from `main` |
| Rooms.RootedAfterPassage | Assets/Scripts/MapGenerators/MapGenerator.cs:59-72 | after a passage that only spreads marks reached from both its rooms, the marks are still all reached from `main` |
| Rooms.UnmarkedShrinks | Assets/Scripts/MapGenerators/MapGenerator.cs:75-85 | marking one more room, and unmarking none, leaves strictly fewer rooms unmarked |
| Rooms.ReachesSelf | Assets/Scripts/MapGenerators/MapGenerator.cs:75-85 | every room reaches itself |
| Rooms.ReachesStep | Assets/Scripts/MapGenerators/MapGenerator.cs:80-83 | a passage followed by a path is a path |
| Rooms.ReachesTrans | Assets/Scripts/MapGenerators/MapGenerator.cs:80-83 | paths joined end to end are a path |
| Rooms.ReachesGrows | Assets/Scripts/MapGenerators/MapGenerator.cs:70-71 | recording more passages loses no path |
| Rooms.PassageReaches | Assets/Scripts/MapGenerators/MapGenerator.cs:59-72 | once two rooms record each other, whatever one reached before is reached from both |
| Rooms.NoPassageAcrossMark | Assets/Scripts/MapGenerators/MapGenerator.cs:59-85 | no passage joins an accessible room to an inaccessible one |
| Rooms.Room.IsConnected | Assets/Scripts/MapGenerators/MapGenerator.cs:88-91 | true exactly when `otherRoom` occurs at least once among the recorded passages |
| Rooms.ConnectedSymmetric | Assets/Scripts/MapGenerators/MapGenerator.cs:70-71 | `IsConnected` is symmetric, because passages are added in both directions |
| Rooms.UnjoinedGraphOK | Assets/Scripts/MapGenerators/MapGenerator.cs:37 | rooms without passages satisfy the graph invariant |
| Rooms.AppendNew | Assets/Scripts/MapGenerators/MapGenerator.cs:202 | adding a room not yet listed keeps the list free of duplicates |
| Rooms.NoDuplicatesCounts | Assets/Scripts/MapGenerators/MapGenerator.cs:207 | a list has no duplicates iff each room occurs at most once in its multiset |
| Rooms.PermutationKeepsNoDuplicates | Assets/Scripts/MapGenerators/MapGenerator.cs:207 | sorting cannot duplicate a room |
| Rooms.SortBySize | Assets/Scripts/MapGenerators/MapGenerator.cs:207 | `survivingRooms.Sort()` returns a permutation, largest room first |
| Rooms.InsertBySize | Assets/Scripts/MapGenerators/MapGenerator.cs:207 | inserting a room into a sorted list adds exactly that room and keeps the list sorted |
| Rooms.SortedAgreesWithCompareTo | Assets/Scripts/MapGenerators/MapGenerator.cs:94-97 | the sorted order never contradicts `CompareTo` |
| Closest.SqDistance | Assets/Scripts/MapGenerators/MapGenerator.cs:271 | the squared distance is non-negative, and zero only for the same tile |
| Closest.ScanTilesB | Assets/Scripts/MapGenerators/MapGenerator.cs:267-282 | the best pair so far improves only strictly. The result is a genuine pair at its true distance, and no closer than any pair with this tile. |
| Closest.ScanTiles | Assets/Scripts/MapGenerators/MapGenerator.cs:265-283 | the same for all pairs of edge tiles of two rooms. Nothing is found iff one of them has no edge tiles. |
| Closest.ScanRooms | Assets/Scripts/MapGenerators/MapGenerator.cs:261-284 | the skips for the same room and for already-connected rooms. Nothing is found iff no room can be paired. The best pair is no farther than any eligible one. |
| Closest.ScanAll | Assets/Scripts/MapGenerators/MapGenerator.cs:253-284 | the forced scan returns the globally nearest eligible pair, or nothing iff no pair exists |
| Closest.SplitByAccess | Assets/Scripts/MapGenerators/MapGenerator.cs:225-238 | list A holds exactly the inaccessible rooms and list B exactly the accessible ones, splitting the rooms; each list keeps the order of `rooms` (`WithAccess`, an order-preserving filter), which decides ties in the forced scan |
| Closest.SettledWhenNoPair | Assets/Scripts/MapGenerators/MapGenerator.cs:293-302 | when the forced scan finds nothing, the rooms are settled |
| MapGenerators.DrawsBeforeInterior | Assets/Scripts/MapGenerators/MapGenerator.cs:341-353 | interior tile `(x, y)` takes the `(x-1)*(h-2)+(y-1)`-th draw |
| MapGenerators.NextColumnDraws | Assets/Scripts/MapGenerators/MapGenerator.cs:341-353 | the draw count carries over from one column to the next |
| MapGenerators.FillIsBinaryWithBorder | Assets/Scripts/MapGenerators/MapGenerator.cs:338-356 | the random fill contains only floors and walls, with walls all round the border |
| MapGenerators.RingValuesInRange | Assets/Scripts/MapGenerators/MapGenerator.cs:143-157 | ring tiles are draws in `[minValue, maxValue)`, each from its own sample |
| MapGenerators.RingIndexInjective | Assets/Scripts/MapGenerators/MapGenerator.cs:143-157 | no two ring tiles share a sample |
| MapGenerators.RingDraws | Assets/Scripts/MapGenerators/MapGenerator.cs:144-157 | the bordering loop draws only on ring tiles, in scan order |
| MapGenerators.ScannedAllNeighbours | Assets/Scripts/MapGenerators/MapGenerator.cs:451-464 | after the 3x3 scan, every orthogonal neighbour of the same value is flagged |
| MapGenerators.FloodDequeue | Assets/Scripts/MapGenerators/MapGenerator.cs:445-449 | dequeuing keeps the flood-fill invariant |
| MapGenerators.FloodEnqueue | Assets/Scripts/MapGenerators/MapGenerator.cs:457-462 | enqueuing an unflagged neighbour of the same value keeps it |
| MapGenerators.RoomsOfAppend | Assets/Scripts/MapGenerators/MapGenerator.cs:202 | a new room for the next large region extends the rooms of the earlier ones |
| MapGenerators.AllDrawnAppend | Assets/Scripts/MapGenerators/MapGenerator.cs:220-303 | two logs of passages drawn between rooms of the list make one |
| MapGenerators.AllDrawnSnoc | Assets/Scripts/MapGenerators/MapGenerator.cs:288-295 | a log stays drawn between rooms of the list when one more such passage is appended |
| MapGenerators.OneLog | Assets/Scripts/MapGenerators/MapGenerator.cs:70-71 | one passage names its two rooms as each other's partners |
| MapGenerators.OneLogCarves | Assets/Scripts/MapGenerators/MapGenerator.cs:309-313 | a log of one passage clears exactly what that passage clears |
| MapGenerators.CarvedByAppend | Assets/Scripts/MapGenerators/MapGenerator.cs:309-313 | the passages of two logs clear what either log clears |
| MapGenerators.PartnersAppend | Assets/Scripts/MapGenerators/MapGenerator.cs:70-71 | the partners two logs give a room are those of the first, then those of the second |
| MapGenerators.RoomsJoinCompose | Assets/Scripts/MapGenerators/MapGenerator.cs:220-303 | two runs of passage making compose: the rooms record the partners of both logs in order, no mark is lost, and marks all reached from a room stay so |
| MapGenerators.JoinPair | Assets/Scripts/MapGenerators/MapGenerator.cs:59-72 | `ConnectRooms` on two distinct rooms not yet joined makes exactly the one passage of the pair: each room gains exactly its partner, no mark is lost, marks reached from a room stay so, and the graph invariant is kept |
| MapGenerators.MapGenerator.constructor | Assets/Scripts/MapGenerators/MapGenerator.cs:111-117 | the dimensions and the value range are stored |
| MapGenerators.MapGenerator.GenerateMap | Assets/Scripts/MapGenerators/MapGenerator.cs:119-161 | see below |
| MapGenerators.MapGenerator.ProcessAndBorder | Assets/Scripts/MapGenerators/MapGenerator.cs:136-160 | see below |
| MapGenerators.MapGenerator.FillAndSmooth | Assets/Scripts/MapGenerators/MapGenerator.cs:129-134 | the map is the random fill after five smoothing passes, made of floors and walls with walls all round the border |
| MapGenerators.MapGenerator.BorderMap | Assets/Scripts/MapGenerators/MapGenerator.cs:139-157 | see below |
| MapGenerators.MapGenerator.IsInMapRange | Assets/Scripts/MapGenerators/MapGenerator.cs:405-408 | the position lies on the map |
| MapGenerators.MapGenerator.InMapRangeIndexesMap | Assets/Scripts/MapGenerators/MapGenerator.cs:405-408 | `IsInMapRange` holds exactly for the indices that are valid on the map array |
| MapGenerators.MapGenerator.RandomFillMap | Assets/Scripts/MapGenerators/MapGenerator.cs:338-356 | every tile holds its `FillValue`: a wall on the border; inside, a wall iff its draw in `0..99` is below the percentage |
| MapGenerators.MapGenerator.GetSurroundingWallCount | Assets/Scripts/MapGenerators/MapGenerator.cs:381-402 | the returned count equals the specified wall count |
| MapGenerators.MapGenerator.SmoothMap | Assets/Scripts/MapGenerators/MapGenerator.cs:359-378 | the new map is one in-place smoothing pass of the old one |
| MapGenerators.MapGenerator.DrawCircle | Assets/Scripts/MapGenerators/MapGenerator.cs:318-335 | exactly the on-map tiles in the disc become floor, and all other tiles keep their value |
| MapGenerators.MapGenerator.ClearDiscColumn | Assets/Scripts/MapGenerators/MapGenerator.cs:322-333 | one column `x` of the square: exactly its on-map tiles in the disc become floor, all others keep their value |
| MapGenerators.MapGenerator.RefillRegion | Assets/Scripts/MapGenerators/MapGenerator.cs:176-179 | see below |
| MapGenerators.MapGenerator.PruneWalls | Assets/Scripts/MapGenerators/MapGenerator.cs:172-182 | see below |
| MapGenerators.MapGenerator.RefillFloor | Assets/Scripts/MapGenerators/MapGenerator.cs:192-199 | a small floor region is refilled; this fails iff `minValue > maxValue` |
| MapGenerators.MapGenerator.MakeRoom | Assets/Scripts/MapGenerators/MapGenerator.cs:200-203 | a large interior region becomes a new room, probed on the map as the earlier refills left it |
| MapGenerators.MapGenerator.AddRoom | Assets/Scripts/MapGenerators/MapGenerator.cs:202 | the new room is appended after the earlier ones, made from its region with no joins, and with an edge tile when the map is binary |
| MapGenerators.MapGenerator.LargeFloorKept | Assets/Scripts/MapGenerators/MapGenerator.cs:196-203 | a large floor region is not refilled, so the map stays the prune of the earlier regions one region further |
| MapGenerators.MapGenerator.LargeFloorHasEdgeTile | Assets/Scripts/MapGenerators/MapGenerator.cs:33-56 | on a binary map, a large interior floor region kept by the prune has a tile next to a wall |
| MapGenerators.MapGenerator.PruneFloors | Assets/Scripts/MapGenerators/MapGenerator.cs:190-204 | see below |
| MapGenerators.MapGenerator.PruneWallRegions | Assets/Scripts/MapGenerators/MapGenerator.cs:166-182 | the wall regions partition the walls and come in the order `GetRegions` finds them (`ScanRegions`), and the map is pruned of the small ones, or fails only if one must be refilled with `minValue > maxValue` |
| MapGenerators.MapGenerator.PruneFloorRegions | Assets/Scripts/MapGenerators/MapGenerator.cs:185-204 | the same for floor regions, the large ones becoming rooms |
| MapGenerators.MapGenerator.PruneRegions | Assets/Scripts/MapGenerators/MapGenerator.cs:164-204 | the two pruning loops in sequence, sharing one generator seeded from the level's seed: the wall regions of the old map, the map with the small ones refilled, the floor regions of that map, the map with the small ones of those refilled, and one new room per large floor region, all as `PrunedFrom` states |
| MapGenerators.MapGenerator.RankRooms | Assets/Scripts/MapGenerators/MapGenerator.cs:207-213 | the rooms are a permutation of the survivors sorted largest first. Only the first is the main room, and only it is accessible. No passages exist yet. |
| MapGenerators.MapGenerator.JoinRooms | Assets/Scripts/MapGenerators/MapGenerator.cs:206-216 | sorting and marking, then joining, as `Ranked` and `Joined` state. Each passage runs between edge tiles of two rooms; each room lists exactly its partners in the passages; the map is the old map cleared exactly along the passages; the room graph is sound and settled; every room with a partner has a passage; the main room is accessible, and a room is accessible exactly when a chain of passages leads to it from the main room. When every room has edge tiles, that is every room. |
| MapGenerators.MapGenerator.JoinRanked | Assets/Scripts/MapGenerators/MapGenerator.cs:215-216 | `ConnectClosestRooms` on ranked rooms without passages, the first alone accessible: the rooms end joined from the old map as `Joined` states, and the main-room flags are unchanged |
| MapGenerators.MapGenerator.RankedState | Assets/Scripts/MapGenerators/MapGenerator.cs:207-213 | ranked rooms without passages, the first alone accessible, form a sound room graph in which every accessible room is reached from the first |
| MapGenerators.MapGenerator.JoinedAfter | Assets/Scripts/MapGenerators/MapGenerator.cs:215-216 | what `ConnectClosestRooms` leaves of ranked rooms without passages is `Joined`; with edge tiles everywhere, every room is accessible and reached from the main room |
| MapGenerators.MapGenerator.JoinedLinks | Assets/Scripts/MapGenerators/MapGenerator.cs:220-303 | rooms that had no passages list exactly their partners in the passages made, and each room with a partner has one |
| MapGenerators.MapGenerator.JoinedMarks | Assets/Scripts/MapGenerators/MapGenerator.cs:208-216 | the main room stays accessible, and a room is accessible exactly when it is reached from the main room |
| MapGenerators.MapGenerator.EdgesAllMarked | Assets/Scripts/MapGenerators/MapGenerator.cs:293-302 | in settled rooms whose first is accessible and which all have edge tiles, every room is accessible |
| MapGenerators.MapGenerator.ProcessMap | Assets/Scripts/MapGenerators/MapGenerator.cs:164-217 | see below |
| MapGenerators.MapGenerator.CreatePassage | Assets/Scripts/MapGenerators/MapGenerator.cs:306-315 | see below |
| MapGenerators.MapGenerator.CarvePassage | Assets/Scripts/MapGenerators/MapGenerator.cs:309-313 | exactly the on-map tiles within the radius of the line from `tileA` to `tileB` become floor |
| MapGenerators.MapGenerator.CarveLine | Assets/Scripts/MapGenerators/MapGenerator.cs:310-313 | the tiles near any point of the line become floor, and nothing else changes |
| MapGenerators.MapGenerator.ConnectClosestRooms | Assets/Scripts/MapGenerators/MapGenerator.cs:220-303 | see below |
| MapGenerators.MapGenerator.ForcedRound | Assets/Scripts/MapGenerators/MapGenerator.cs:225-297 | one forced round: a pair was found and one more room became accessible, with that passage made; or none was found, nothing changed and the rooms are settled |
| MapGenerators.MapGenerator.ForcedJoin | Assets/Scripts/MapGenerators/MapGenerator.cs:293-297 | the passage from an inaccessible room to an accessible one is made, and strictly fewer rooms stay inaccessible |
| MapGenerators.MapGenerator.PickForced | Assets/Scripts/MapGenerators/MapGenerator.cs:225-284 | list A holds exactly the inaccessible rooms and list B the accessible ones. A pair found is a genuine, unjoined pair across the lists at the smallest distance of any pair across them; nothing is found iff no pair across them has edge tiles on both sides, and then the rooms are settled. |
| MapGenerators.MapGenerator.GreedyPhase | Assets/Scripts/MapGenerators/MapGenerator.cs:253-291 | every passage made runs between two rooms of the list and is logged; nothing else changes; afterwards every room with edge tiles has a passage when some other room has edge tiles too |
| MapGenerators.MapGenerator.GreedyRound | Assets/Scripts/MapGenerators/MapGenerator.cs:253-290 | one room of the greedy loop: the passage `PickGreedy` chooses, if any, is made and logged, and this room gets a passage when it has a partner |
| MapGenerators.MapGenerator.PickGreedy | Assets/Scripts/MapGenerators/MapGenerator.cs:255-284 | a room with passages is skipped. Otherwise a pair found starts at this room, is genuine and unjoined, and no pair with any other room is closer; nothing is found only when no other room can be paired with it. |
| MapGenerators.MapGenerator.MakePassage | Assets/Scripts/MapGenerators/MapGenerator.cs:288-295 | `CreatePassage` for a drawn pair of two rooms not yet joined makes exactly that passage: the rooms as `RoomsJoin` states, the map as `GridCarved` states |
| MapGenerators.MapGenerator.CarveFor | Assets/Scripts/MapGenerators/MapGenerator.cs:309-313 | the map is the old map cleared exactly along the one passage |
| MapGenerators.MapGenerator.GridCarvedCompose | Assets/Scripts/MapGenerators/MapGenerator.cs:309-313 | two runs of carving clear exactly what either log clears |
| MapGenerators.MapGenerator.JoinsCompose | Assets/Scripts/MapGenerators/MapGenerator.cs:220-303 | two runs of passage making, one after the other, make the passages of both logs |
| MapGenerators.MapGenerator.GreedyKeepsPartners | Assets/Scripts/MapGenerators/MapGenerator.cs:286-290 | after the greedy passage from room `i`, that room and every earlier room with a partner has a passage |
| MapGenerators.MapGenerator.GetRegions | Assets/Scripts/MapGenerators/MapGenerator.cs:410-432 | the regions are genuine flood-fill regions, pairwise disjoint, and together hold exactly the tiles of the type. The list is exactly `ScanRegions`: one flood fill per tile of the type not yet covered, met in column-by-column (x, then y) scan order. |
| MapGenerators.MapGenerator.ScanRegionColumn | Assets/Scripts/MapGenerators/MapGenerator.cs:417-429 | after column `x`, every tile of the type in columns `0..x` is covered by a found region, and the list is `ScanRegions` up to the start of column `x + 1` |
| MapGenerators.MapGenerator.MarkRegion | Assets/Scripts/MapGenerators/MapGenerator.cs:424-427 | the flags are set exactly on the covered tiles plus the new region |
| MapGenerators.MapGenerator.GetRegionTiles | Assets/Scripts/MapGenerators/MapGenerator.cs:435-468 | the result is exactly the connected region of the start tile's value, each tile once, start first. Its order is exactly `FloodFrom`: tiles in breadth-first dequeue order, each tile's unflagged neighbours enqueued column by column, as `Expand` lists them. |
| MapGenerators.MapGenerator.FloodVisit | Assets/Scripts/MapGenerators/MapGenerator.cs:446-463 | one dequeue and neighbour scan keeps the flood invariant, reachability and the breadth-first order: the front tile moves to the result, the queue loses it and gains `Expand` of it, and exactly those tiles become flagged |
| MapGenerators.MapGenerator.EnqueueNeighbours | Assets/Scripts/MapGenerators/MapGenerator.cs:451-464 | the queue grows by exactly `Expand` of the tile (its unflagged same-value orthogonal neighbours, in scan order) and exactly those become flagged; every such neighbour ends flagged |
| MapGenerators.MapGenerator.ScanNeighbourColumn | Assets/Scripts/MapGenerators/MapGenerator.cs:453-463 | one column of that scan, keeping the flood invariant: the queue grows by exactly `ColumnProbes` of that column |
| MapGenerators.MapGenerator.ProbeNeighbour | Assets/Scripts/MapGenerators/MapGenerator.cs:455-461 | one position of the scan: the queue grows by exactly `Probe` of it, which enqueues and flags the position iff it is an unflagged same-value orthogonal neighbour on the map |
| MapGenerators.MapGenerator.GetLine | Assets/Scripts/MapGenerators/MapGenerator.cs:471-528 | the list has one point per major-axis step, the `i`-th being `LinePoint(from, to, i)`, and is empty iff `from == to` |
| ObjectPools.RemoveFirstCutsFirst | Assets/Scripts/ObjectPools/ObjectPool.cs:57 | `List.Remove` cuts out exactly the first occurrence and keeps the order, and does nothing when the object is absent |
| ObjectPools.RemoveFirstCount | Assets/Scripts/ObjectPools/ObjectPool.cs:57 | it removes one copy when present and none otherwise, so the length drops by exactly that |
| ObjectPools.ReuseKeepsHeld | Assets/Scripts/ObjectPools/ObjectPool.cs:23-43 | reuse moves an object from the queue to the list; nothing is lost or duplicated, and the list grows by exactly one |
| ObjectPools.ReturnKeepsHeld | Assets/Scripts/ObjectPools/ObjectPool.cs:54-59 | returning an object in the game moves it; returning a stranger adds it to the pool |
| ObjectPools.ReturnThenGet | Assets/Scripts/ObjectPools/ObjectPool.cs:23-59 | with an empty queue, `Return(obj)` followed by `Get()` hands back `obj` and leaves it at the back of the list |
| ObjectPools.ReturnsComeBackInOrder | Assets/Scripts/ObjectPools/ObjectPool.cs:17-59 | objects returned one after another queue up in that order behind those already waiting (FIFO) |
| ObjectPools.ObjectPool.constructor | Assets/Scripts/ObjectPools/ObjectPool.cs:17-20 | a new pool has an empty queue and an empty list |
| ObjectPools.ObjectPool.Get | Assets/Scripts/ObjectPools/ObjectPool.cs:23-28 | the object is active and appended to the list. It is the old front of the queue when there was one, otherwise a new object. The other queued objects are untouched. |
| ObjectPools.ObjectPool.GetObject | Assets/Scripts/ObjectPools/ObjectPool.cs:31-43 | it dequeues the front and reactivates it, or makes a new active object when the queue is empty; the list is not touched |
| ObjectPools.ObjectPool.AddObject | Assets/Scripts/ObjectPools/ObjectPool.cs:46-51 | the factory's new object, activated |
| ObjectPools.ObjectPool.Return | Assets/Scripts/ObjectPools/ObjectPool.cs:54-59 | the object is inactive, out of the list (first occurrence only) and at the back of the queue |

"Settled" (the predicate `Closest.Settled`) means:

- no inaccessible room with edge tiles remains while some accessible room has edge tiles.

That the marks are closed along passages is part of the graph invariant below, not of `Settled`.

"Graph invariant" (`Rooms.GraphOK`) means:

- passages are symmetric;
- no room is joined to itself or twice to the same room;
- marks are closed along passages.

The rows marked "see below" state the following.

**`MapGenerators.MapGenerator.GenerateMap`**
- A level outside the seed table fails with `LevelOutOfRange`, and only such a level does.
- It succeeds exactly when the level is in the table, `ProcessMap` reported no error and `minValue <= maxValue`.
- Otherwise the level's seed and the percentage are stored. `filled` is the random fill and `smoothed` that fill after five smoothing passes.
- `stages` is what `ProcessMap` made of `smoothed`, as `PrunedFrom` states. On a `ProcessMap` error, that error is the result and there are no rooms.
- Otherwise the returned `rooms` are joined from the pruned map, as `JoinedFrom` states.
- `minValue > maxValue` always fails. `MinAboveMax` is reported only in that case.
- Every error is one of the three kinds.
- A success is a new map two tiles larger in each dimension. Inside it is the joined map shifted by one. Its ring holds the draws of a freshly seeded generator.
- Suppose `0 <= minValue <= 1` and `minValue <= maxValue <= 2`, so that every draw is 0 or 1. Then on success every room has edge tiles, is accessible, and is reached along passages from the main room.

**`MapGenerators.MapGenerator.ProcessAndBorder`**
- `ProcessMap`, then `BorderMap` unless `ProcessMap` failed.
- It succeeds exactly when `ProcessMap` reported no error and `minValue <= maxValue`.
- It states the same about `stages`, the rooms and the bordered map as `GenerateMap`, relative to the map it starts from. The connectivity clause needs, besides the bounds on `minValue` and `maxValue`, that the starting map holds only floors and walls.

**`MapGenerators.MapGenerator.BorderMap`**
- It fails with `MinAboveMax` iff `minValue > maxValue`.
- Otherwise inner tile `(x, y)` copies map tile `(x-1, y-1)`, and ring tiles take successive draws in scan order.

**`MapGenerators.MapGenerator.RefillRegion`**
- It succeeds iff `minValue <= maxValue`.
- On success the region holds successive draws and the generator has advanced by the region's size.
- On failure nothing changes.

**`MapGenerators.MapGenerator.PruneWalls`**
- It fails iff some region must be refilled while `minValue > maxValue`.
- With `minValue <= maxValue` the map and the generator are as `Prune` says.
- With `minValue > maxValue` nothing changes.

**`MapGenerators.MapGenerator.PruneFloors`**
- `MinAboveMax` is reported only when `minValue > maxValue`. `RoomOnMapEdge` is reported only when a large region touches the border.
- On success:
  - the map and the generator are as `Prune` says;
  - the rooms are exactly the large regions in order, each new and unjoined;
  - on a floor-and-wall map refilled with floors and walls, every room has an edge tile.
- On error no rooms are returned.

**`MapGenerators.MapGenerator.ProcessMap`**
- The stages returned are what the map was pruned to, as `PrunedFrom` states (everything `PruneRegions` states): among others, the wall and floor region lists in the order `GetRegions` finds them, and on success every large floor region lying inside the border.
- On an error no rooms are returned and the map is the pruned map.
- Otherwise the rooms are as `JoinedFrom` states:
  - a permutation of the surviving rooms, sorted largest first;
  - only the first is the main room;
  - the final map is the pruned map cleared exactly along the logged passages;
  - a room is accessible exactly when it is reached from the main room, which is accessible.
- On a floor-and-wall map with draws in `{0, 1}`, every room has edge tiles, is accessible, and is reached along passages from the main room.

**`MapGenerators.MapGenerator.CreatePassage`**
- Exactly the tiles within the radius of the line become floor.
- Both rooms list each other, and the other rooms are unchanged.
- If either room was accessible, both are.
- If neither was, no mark changes.
- No mark is lost.
- Every room newly marked is reached along passages from both rooms.
- Marks that were all reached from some room still are.
- The graph invariant is kept when a new passage joins two distinct rooms.

**`MapGenerators.MapGenerator.ConnectClosestRooms`**
- `passages` logs every passage made, each drawn between edge tiles of two rooms of the list (`Drawn`).
- The rooms and the map change exactly as the log says (`Joins`):
  - every room's list grows by its partners in the log;
  - no mark is lost;
  - marks all reached from a room stay so;
  - the map is cleared exactly along the log.
- The graph invariant is kept.
- The rooms end settled.
- A greedy call leaves every room with a partner joined to something.

Its contract does not say how each passage was chosen. Each round calls `PickGreedy` or `PickForced`, whose contracts say that the pair found is a genuine, unjoined pair with no closer pair.

These lemmas are documentation only: each states a fact about the model for a reader, and no other proof uses it: `Rooms.ConnectedSymmetric`, `Rooms.CompareToAntisymmetric`, `Rooms.SortedAgreesWithCompareTo`, `MapGenerators.MapGenerator.InMapRangeIndexesMap`, `MapGenerators.RingValuesInRange`, `MapGenerators.RingIndexInjective`, `Smoothing.WallCountRange`, `Raster.DiscIsEuclidean`, `Raster.NegativeRadiusEmpty`, `Raster.PassageClearsEnds`, `Smoothing.PassIsInPlace`, `ObjectPools.ReuseKeepsHeld`, `ObjectPools.ReturnKeepsHeld` and `ObjectPools.ReturnThenGet`.

The methods `FillAndSmooth`, `ProcessAndBorder`, `CarveFor` and `ForcedJoin` are not separate functions in the source. Each holds one step of a larger method, so that each proof stays small.

## Left out

- `System.Random` and `string.GetHashCode`: the seed's stream of raw samples is a parameter (`hash`). A sample is scaled into a range as `lo + s % (hi - lo)`; .NET's own scaling is foreign code.
- `Debug.Log` calls: they are I/O and have no effect on the map.
- `Mathf.Pow` in the distance is floating point; the model uses the exact integer square. The squares are small integers and the cast back to `int` is exact for them.
- `List.Sort` is an unstable introsort, so the order among rooms of equal size is unspecified. `Rooms.SortBySize` is a stable insertion sort. Only "a permutation, sorted largest first" is relied on.
- Exceptions become `Err`/`Some(error)` results: `IndexOutOfRangeException` for a bad level or a room tile on the map border, and `ArgumentOutOfRangeException` for `minValue > maxValue`.
  - The values the source leaves behind when it throws mid-loop are not modelled. `PruneFloors` and `ProcessMap` return no rooms on error, and so does `GenerateMap` for a bad level or a `ProcessMap` error. When only `BorderMap` fails (with `MinAboveMax`), the ghost `rooms` of `GenerateMap` and `ProcessAndBorder` are the joined rooms.
  - A failing `Next` is modelled as failing before it writes anything.
- MapGenerators.MapGenerator.ProcessMap: connectivity of all rooms is proved only when the map holds floors and walls and the refill draws lie in `{0, 1}`. With other values, refilled tiles may hold values such as 2 that the edge-tile probe does not count as walls. A room can then lack edge tiles and stay unreachable, exactly as in the source.
- MapGenerators.MapGenerator.GenerateMap: the rooms, the passages and the intermediate maps are ghost outputs. In the source they are locals of `ProcessMap` that do not outlive the call; only the bordered map is returned.
- MapGenerators.MapGenerator.constructor: `width` and `height` are `nat`, while the source takes any `int`. With a negative size, `new int[_width, _height]` (MapGenerator.cs:122) throws an `OverflowException` in `GenerateMap`. That failure is not modelled.
- MapGenerators.MapGenerator.CreatePassage: the model carves the passage first and joins the rooms after, while the source joins first. The carving touches only the map and the joining only the rooms, so the order cannot be observed.
- MapGenerators.MapGenerator.ConnectClosestRooms: its own contract does not say that each passage was the closest pair. That is stated round by round, by `PickGreedy` and `PickForced`, and not over the whole log.
- MapGenerators.MapGenerator.PickGreedy: on ties between pairs at the same distance, the pair the scan met first is kept. The contract states only that no pair is closer; which tied pair wins is not stated.
- MapGenerators.MapGenerator.PickForced: on ties between pairs across the two lists at the same distance, the pair the scan met first is kept. The contract states only that no pair across the lists is closer; which tied pair wins is not stated.
- The parameterless `Room()` constructor only makes placeholder rooms for the best-pair variables. The model uses an `Option` instead.
- `Coord`'s constructor is the datatype constructor.
- The Zenject factory (`FactoryPool.Create`) is modelled as `new Component()`, and `gameObject.SetActive` as the `active` field. The `prefab` field is never read and is left out.
- `ObjectPool<T>` is generic over Unity components. The model fixes one class `Component`.
- The recursion `ConnectClosestRooms(allRooms, true)` terminates because each forced round makes one more room accessible. This is proved, so no fuel is needed.
