# RhythMage level and dungeon generation, modelled in Dafny

RhythMage is a rhythm game. On each beat the avatar steps one cell along a path through a
procedurally built dungeon. A swipe in time with the music kills an enemy standing on the
avatar's cell or the next one. This project models the generator and the game state it feeds.

- **Grid primitives** (`grid.dfy`, `int32.dfy`). `Cell`, `CoordinateOffset`, the `Direction`
  enum and the `facings` table, with 32-bit wrap-around where the source packs coordinates
  into an `int` (`GetHashCode`, `CompareTo`).
- **Level builder** (`rects.dfy`, `region_graph.dfy`, `search.dfy`, `subdivision.dfy`,
  `merging.dfy`, `disabling.dfy`, `placement.dfy`, `level.dfy`, `rooms.dfy`).
  - `LevelBuilder` starts from one square region and places rooms one at a time.
  - It keeps a graph of rectangular regions whose `connections` lists record which region
    borders which, and on what side.
  - Each room cuts the regions around it into a 3×3 grid of pieces. The pieces are stitched
    back into the graph, merged and re-split to match their neighbours.
  - Small regions are disabled.
  - One doorway is drawn between each pair of consecutive rooms, and a wall ring goes around
    each room.
  - The region graph is an arena: a map from region ids to records (rectangle, connections,
    `Enabled`, is-a-room), plus the `allRegions` list and the next free id.
  - Regions are never mutated in place. A split allocates two new ids.
- **Path builder** (`paths.dfy`). `PathBuilder` enters the first room at a border cell. It walks
  a greedy, bounded stepper through random waypoints in each room, then leaves every room but
  the last through the doorway to the next.
- **Corridor generator and enemy placement** (`corridors.dfy`, `floors.dfy`, `enemy_slots.dfy`).
  - The `DungeonBuilder` corridor loop lays straight runs and turns left or right, unless a
    turn would run into the start of the path.
  - Each floor adds its 3×3 block to the wall candidates.
  - Enemies go on distinct floor cells away from both ends of the path, sorted by path index.
- **State containers** (`dungeon_model.dfy`). `ObjectPool` (a LIFO free list),
  `DungeonEntityTracker` (a cell-to-entity dictionary backed by a pool) and `DungeonModel`
  (path, enemy map and six trackers).
- **Avatar** (`avatar.dfy`, `avatar_controller.dfy`). The health counter, and the controller's
  beat, swipe and collision rules.

Randomness is an oracle: a stream of naturals with a position (`random.dfy`).
- `Next(lo, hi)` returns a value in `[lo, hi)`, or `lo` when `lo == hi`. A reversed range is a
  precondition, because `System.Random` throws on it.
- Every draw advances the stream by one.
- `EveryValueReachable` shows that the model rules out no outcome of the real generator.

Operations that throw in C# (a `null` dereference, `First` on an empty list, `Dictionary.Add`
of a present key) return a `Failure` of the `Result` type in `wrappers.dfy`.

Recursion through the region graph takes a `fuel` bound (the number of regions created so
far), because the source recurses over a mutable object graph with no explicit bound.

## Model

| member | source | states |
|---|---|---|
| Grid.Create | Assets/Scripts/Cell.cs:23-27 | The constructor stores both coordinates unchanged. |
| Grid.CellEquals | Assets/Scripts/Cell.cs:42-45 | `Equals` holds exactly when both coordinates agree. |
| Grid.CellEqualityLaws | Assets/Scripts/Cell.cs:42-60 | `Equals` is reflexive and symmetric, `==` agrees with it and `!=` is its negation. |
| Grid.CellHash | Assets/Scripts/Cell.cs:47-50 | The hash `(x << 16) + y` is a 32-bit value. Equal cells hash alike, since it is a function of the cell. |
| Grid.CellHashInjectiveOnPackedRange | Assets/Scripts/Cell.cs:47-50 | On 16-bit signed x and 16-bit unsigned y, equal hashes mean equal cells. |
| Grid.MakeOffset | Assets/Scripts/CoordinateOffset.cs:12-18 | `Create` stores both components unchanged. |
| Grid.Distance | Assets/Scripts/CoordinateOffset.cs:20-26 | The distance from `a` to `b`, added to `a`, reaches `b`. |
| Grid.AddOffsets | Assets/Scripts/CoordinateOffset.cs:69-72 | Adding two offsets moves a cell as applying them one after the other does. |
| Grid.SubOffsets | Assets/Scripts/CoordinateOffset.cs:74-77 | Subtraction undoes addition. |
| Grid.OffsetEq | Assets/Scripts/CoordinateOffset.cs:44-57 | `Equals` and `==` hold exactly when both components agree. |
| Grid.OffsetAlgebra | Assets/Scripts/CoordinateOffset.cs:20-96 | `a + Distance(a, b) == b`; `Distance` is the componentwise difference; `(c + o) - o == c`; `-(-o) == o`; `o + (-o) == (0, 0)`; `o * 1 == o`; `o * 0 == (0, 0)`; `o != o` is false. |
| Grid.CompareTo | Assets/Scripts/CoordinateOffset.cs:34-37 | The comparison is a 32-bit value and is zero on equal offsets. |
| Grid.CompareToAntisymmetric | Assets/Scripts/CoordinateOffset.cs:34-37 | When the key subtraction does not overflow, swapping the operands negates the result. |
| Grid.CompareToZeroOnPackedRange | Assets/Scripts/CoordinateOffset.cs:34-37 | On the range where the key packs without loss, the comparison is zero exactly for equal offsets. |
| Grid.FromOrdinal | Assets/Scripts/Defs.cs:9-16 | The cast from an ordinal inverts the enum order Forward=0, Right=1, Backward=2, Left=3, None=4. |
| Grid.OrdinalRoundTrip | Assets/Scripts/Defs.cs:9-16 | Casting a direction's ordinal back gives the direction. |
| Grid.Facing | Assets/Scripts/Defs.cs:28-34 | Every facing is a unit step. |
| Grid.FacingLaws | Assets/Scripts/Defs.cs:28-46 | The four facings are distinct, opposite directions have negated facings, and `GetOffsetDirection` maps each facing back to its direction. |
| Grid.ForEachDirection | Assets/Scripts/PathBuilder.cs:93 | The four directions, in enum order. |
| Grid.Inverse | Assets/Scripts/PathBuilder.cs:121 | The inverse of a real direction is another real direction, and `None` stays `None`. |
| Grid.Rotate | Assets/Scripts/LevelBuilder.cs:303-304 | A quarter turn of a real direction is neither the direction nor its inverse. |
| Grid.RotationIsModular | Assets/Scripts/DungeonBuilder.cs:230-235 | Clockwise adds one, counter-clockwise three and inversion two to the ordinal, modulo four: the rule `ChangeDirection` uses. |
| Grid.RotationLaws | Assets/Scripts/LevelBuilder.cs:303-304 | Turning back undoes a turn, two clockwise turns make the inverse, and inversion is an involution. |
| Grid.IsOrthogonal | Assets/Scripts/LevelBuilder.cs:909 | Two directions are orthogonal exactly when one is a quarter turn of the other. |
| Grid.GetOffsetDirection | Assets/Scripts/Defs.cs:36-46 | The result's facing is the offset; `None` only when no facing matches. |
| Grid.NonUnitOffsetHasNoDirection | Assets/Scripts/Defs.cs:36-46 | An offset that is not a unit step has no direction. |
| Grid.StepBack | Assets/Scripts/PathBuilder.cs:145-146 | A step along a facing and one along its inverse return to the start. |
| Grid.ChainFromAppend | Assets/Scripts/PathBuilder.cs:184 | Appending a chain of unit steps to the end of another gives a chain. |
| Grid.StepIsUnit | Assets/Scripts/PathBuilder.cs:160 | A cell plus a facing is one unit step away. |
| Int32.Wrap | Assets/Scripts/Cell.cs:49 | The result lies in the 32-bit range and agrees with the input modulo 2^32. |
| Int32.ShiftLeft16 | Assets/Scripts/Cell.cs:49 | The result is a 32-bit value, and for a 16-bit signed `v` it is `v * 65536`. |
| Random.NextRange | Assets/Scripts/RandomNumberProvider.cs:31-34 | The value lies in `[lo, hi)`, or is `lo` when the range is empty, and the stream advances by one. |
| Random.NextBelow | Assets/Scripts/RandomNumberProvider.cs:36-39 | The value lies in `[0, n)`, or is 0 when `n` is 0. |
| Random.NextBool | Assets/Scripts/RandomNumberProvider.cs:41-44 | The coin costs one draw. |
| Random.Pick | Assets/Scripts/PathBuilder.cs:58 | The chosen element is in the list. |
| Random.EveryValueReachable | Assets/Scripts/RandomNumberProvider.cs:31-34 | Every value of a non-empty range is the draw of some stream. |
| Rects.AdjacencyMeansTouching | Assets/Scripts/LevelBuilder.cs:940-954 | For regions with cells, `TryGetAdjacency` answers the side on which the other region touches, and `None` exactly when it touches on no side. |
| Rects.AdjacencySymmetric | Assets/Scripts/LevelBuilder.cs:940-954 | If `a` sees `b` on side `d`, then `b` sees `a` on `Inverse(d)`. |
| Rects.AdjacentRegionsAreDisjoint | Assets/Scripts/LevelBuilder.cs:940-954 | Bordering regions share no cell. |
| Rects.IntersectsIffSharedCell | Assets/Scripts/LevelBuilder.cs:459-463 | `RoomIntersectsRegion` holds exactly when some cell lies in both. |
| Rects.SplitRectLaws | Assets/Scripts/LevelBuilder.cs:805-826 | The split is worth making exactly when both halves keep cells. The halves then lie inside the original and border each other on the split side. Every cell of the original lies in exactly one half. |
| Rects.Union | Assets/Scripts/LevelBuilder.cs:622 | The bounding box of two rectangles encloses both. |
| Rects.BoundingBoxLaws | Assets/Scripts/LevelBuilder.cs:467-469 | The aggregate's bounding box encloses every rectangle, and each of its sides is a side of some rectangle. |
| Rects.Piece | Assets/Scripts/LevelBuilder.cs:475-493 | Piece `(i, j)` spans the cut points `xCoords[i]..xCoords[i+1]` by `zCoords[j]..zCoords[j+1]`. |
| Rects.ExactlyOneBand | Assets/Scripts/LevelBuilder.cs:475-476 | A value between the outer cut points falls between exactly one pair of neighbouring cut points. |
| Rects.PiecesTileBox | Assets/Scripts/LevelBuilder.cs:465-493 | The middle piece is the room, every cell of the box lies in exactly one piece, and no piece reaches outside the box. |
| Rects.NeighbouringPiecesAdjacent | Assets/Scripts/LevelBuilder.cs:496-516 | Neighbouring pieces with cells border each other: the next along z lies forward, the next along x to the right. |
| Rects.StripsLaws | Assets/Scripts/LevelBuilder.cs:725-741 | Cuts at increasing coordinates inside a region leave non-empty strips inside it, each spanning it across the cut and bordering the next on the split side. |
| Rects.CutForInside | Assets/Scripts/LevelBuilder.cs:658-723 | A recorded coordinate cuts the region into two non-empty parts and is an edge of the adjacent region. |
| Rects.MatchCoordinateSeparates | Assets/Scripts/LevelBuilder.cs:753-764 | For side-by-side regions the chosen coordinate is the line between them, so the debug assertion that it is an edge of the second region holds. |
| RegionGraph.Alloc | Assets/Scripts/LevelBuilder.cs:929-938 | A new region gets the next id, is enabled, has no connections and changes no existing region. |
| RegionGraph.AddToList | Assets/Scripts/LevelBuilder.cs:956-961 | `AddRegionToList` appends a region that is not listed yet; the arena is unchanged. |
| RegionGraph.AddEdge | Assets/Scripts/LevelBuilder.cs:868-875 | The list gains `(d, n)` only when it does not name `n` yet, so it never names a region twice; afterwards it names `n`; other regions are untouched. |
| RegionGraph.Link | Assets/Scripts/LevelBuilder.cs:865-876 | After a successful connection each side names the other, each list only grows, and regions other than the two are untouched. |
| RegionGraph.TryConnect | Assets/Scripts/LevelBuilder.cs:851-880 | The connection succeeds exactly when both regions exist and a direction is given or found. A refusal changes nothing. Success links `lhs` to `rhs` in the direction and `rhs` to `lhs` in the inverse. |
| RegionGraph.Connect | Assets/Scripts/LevelBuilder.cs:845-849 | `ConnectRegions` is `TryConnectRegions` with its answer dropped. |
| RegionGraph.TryConnectKeepsSymmetry | Assets/Scripts/LevelBuilder.cs:851-880 | Connecting two regions, or a region to itself, keeps directional symmetry among any regions it held for: `a` names `b` in `d` exactly when `b` names `a` in `Inverse(d)`. |
| RegionGraph.ConnectKeepsSymmetry | Assets/Scripts/LevelBuilder.cs:845-880 | `ConnectRegions` keeps directional symmetry among any regions it held for. |
| RegionGraph.LinkKeepsSymmetry | Assets/Scripts/LevelBuilder.cs:865-876 | Linking two regions in a real direction keeps directional symmetry among any regions it held for. |
| RegionGraph.TryConnectKeepsSymmetricLive | Assets/Scripts/LevelBuilder.cs:851-880 | If every two regions of `allRegions` were mirrored before a connection, they still are after it. |
| RegionGraph.ConnectKeepsSymmetricLive | Assets/Scripts/LevelBuilder.cs:845-880 | `ConnectRegions` keeps every two regions of `allRegions` mirrored. |
| RegionGraph.AllocKeepsSymmetry | Assets/Scripts/LevelBuilder.cs:929-938 | A new region has no connections and no region names it, so it is mirrored with every region the symmetry held for. |
| RegionGraph.AllocKeepsSymmetricLive | Assets/Scripts/LevelBuilder.cs:929-938 | After creating a region, the regions of `allRegions` and the new one are pairwise mirrored when `allRegions` was. |
| RegionGraph.AllocListedKeepsSymmetry | Assets/Scripts/LevelBuilder.cs:929-961 | A new region is not listed yet, and listing it keeps `allRegions` directionally symmetric. |
| RegionGraph.RemoveLastLaws | Assets/Scripts/LevelBuilder.cs:891-903 | Removing the last entry for `n` keeps the list duplicate free and forgets `n`. Every other entry keeps its direction. |
| RegionGraph.RemoveConnection | Assets/Scripts/LevelBuilder.cs:891-903 | Only `from`'s list changes, and it loses its entry for `other`. |
| RegionGraph.RemoveFromNeighbours | Assets/Scripts/LevelBuilder.cs:884-887 | Every region the snapshot names loses its entry for `r`; every other region is untouched. |
| RegionGraph.RemoveFirstLaws | Assets/Scripts/LevelBuilder.cs:888 | `allRegions.Remove` keeps exactly the other elements of a duplicate-free list. |
| RegionGraph.RemoveRegion | Assets/Scripts/LevelBuilder.cs:882-889 | `r` leaves `allRegions`. Every region that `r` listed loses its last entry for `r`, and every other list is unchanged. |
| RegionGraph.RemoveRegionForgetsRegion | Assets/Scripts/LevelBuilder.cs:882-903 | No region that `r` listed still lists `r`, and what any region says about any other region is unchanged. |
| RegionGraph.RemoveRegionKeepsSymmetry | Assets/Scripts/LevelBuilder.cs:882-903 | Removing a region keeps directional symmetry among the regions that remain. |
| RegionGraph.RemoveRegionKeepsSymmetricLive | Assets/Scripts/LevelBuilder.cs:882-903 | Removing a region keeps the remaining regions of `allRegions` pairwise mirrored. |
| RegionGraph.RemoveRegionKeepsEdge | Assets/Scripts/LevelBuilder.cs:891-903 | No region's entry for a region other than `r` changes. |
| Search.HasRoomsInDirection | Assets/Scripts/LevelBuilder.cs:828-843 | The answer is `true` exactly when some chain of connections in the direction, within the fuel bound, ends in a room. |
| Search.AnyRoomAheadFindsChain | Assets/Scripts/LevelBuilder.cs:828-843 | A room is found ahead exactly when some chain of connections in the direction, within the fuel bound, ends in a room. |
| Search.AnyRoomAheadSound | Assets/Scripts/LevelBuilder.cs:828-843 | Every room found is at the end of such a chain. |
| Search.AnyRoomAheadComplete | Assets/Scripts/LevelBuilder.cs:828-843 | Every such chain leads to a room being found. |
| Search.FindAhead | Assets/Scripts/LevelBuilder.cs:440-451 | The regions found are regions of the graph. |
| Search.FindAheadFindsChains | Assets/Scripts/LevelBuilder.cs:440-451 | A region is found exactly when an open chain of enabled ordinary regions in the direction ends in it. |
| Search.FindAheadSound | Assets/Scripts/LevelBuilder.cs:440-451 | Every region found ends an open chain. |
| Search.FindAheadComplete | Assets/Scripts/LevelBuilder.cs:440-451 | The end of every open chain is found. |
| Search.FindRegionsInDirection | Assets/Scripts/LevelBuilder.cs:440-451 | What the search appends to `foundRegions`: enabled ordinary regions of the graph. |
| Search.StepAhead | Assets/Scripts/LevelBuilder.cs:407-428 | A pass succeeds only when every frontier region has exactly one ordinary region ahead, and the candidates are those regions. |
| Search.ExtendAhead | Assets/Scripts/LevelBuilder.cs:403-437 | The `while (repeat)` loop keeps what was found so far and adds only ordinary regions of the graph. |
| Search.FindOrthogonalRegions | Assets/Scripts/LevelBuilder.cs:396-438 | The aggregate starts with the current region; every other region in it is an ordinary region of the graph. |
| Subdivision.AllocHalves | Assets/Scripts/LevelBuilder.cs:812-823 | Two fresh regions cover the halves, and each lists only the other, Right or Forward from the first. The halves are mirrored with each other and with every listed region when `allRegions` was symmetric. |
| Subdivision.ApplyConnectionsToSubregions | Assets/Scripts/LevelBuilder.cs:905-927 | Carrying over the split region's connections keeps the graph well formed and only adds entries. |
| Subdivision.ApplyConnectionsKeepSymmetry | Assets/Scripts/LevelBuilder.cs:905-927 | Carrying the connections over to the halves keeps directional symmetry among any regions it held for. |
| Subdivision.ApplyRehomesOrthogonal | Assets/Scripts/LevelBuilder.cs:909-919 | Every connection at right angles to the split ends up on the half on its side: `A` for Backward and Left, `B` otherwise. |
| Subdivision.SubdivideRegion | Assets/Scripts/LevelBuilder.cs:812-826 | Two new ordinary regions cover exactly the split halves; `allRegions` is unchanged. When `allRegions` was symmetric, it and the two halves are pairwise mirrored. |
| Subdivision.SubdivideRegionMeets | Assets/Scripts/LevelBuilder.cs:823 | The halves list each other first, on the side where they meet. |
| Subdivision.SubdivideRegionConnects | Assets/Scripts/LevelBuilder.cs:905-919 | Every connection at right angles to the split is carried to the half on its side. |
| Subdivision.SubdivideAlong | Assets/Scripts/LevelBuilder.cs:773-803 | The region leaves `allRegions`; two newer regions cover its halves and the graph is extended. Directional symmetry of `allRegions` is preserved. |
| Subdivision.SubdivideAlongMakesRegions | Assets/Scripts/LevelBuilder.cs:773-803 | The halves are ordinary regions. |
| Subdivision.SplitAndList | Assets/Scripts/LevelBuilder.cs:775-778 | The region is replaced in `allRegions` by its two halves, and directional symmetry of `allRegions` is preserved. |
| Subdivision.FreshPairKeepsSymmetry | Assets/Scripts/LevelBuilder.cs:812-823 | Two fresh regions linked only to each other are mirrored with each other and with every region the symmetry held for. |
| Subdivision.ConnectPairKeepsSymmetry | Assets/Scripts/LevelBuilder.cs:784-800 | Connecting a neighbour to each half keeps `allRegions` directionally symmetric. |
| Subdivision.Rehome | Assets/Scripts/LevelBuilder.cs:780-801 | The loop over the split region's list extends the graph and keeps `allRegions` directionally symmetric. |
| Subdivision.RehomeEdge | Assets/Scripts/LevelBuilder.cs:784-800 | Handing one of the split region's connections to the halves extends the graph and keeps `allRegions` directionally symmetric. |
| Subdivision.InsertAscending | Assets/Scripts/LevelBuilder.cs:732-733 | Inserting into an ascending list of distinct keys keeps it so and adds exactly the new key. |
| Subdivision.CutCoordinates | Assets/Scripts/LevelBuilder.cs:658-723 | The sorted keys of `coordinatesToSubdivide`: each is an edge of some adjacent region falling strictly inside the region. |
| Subdivision.CutCoordinatesInside | Assets/Scripts/LevelBuilder.cs:658-723 | Every recorded coordinate cuts the region into two non-empty parts. |
| Subdivision.SplitAtEach | Assets/Scripts/LevelBuilder.cs:734-740 | Splitting at each coordinate in turn extends the graph, leaves one region per strip and keeps `allRegions` directionally symmetric. |
| Subdivision.SplitAtEachCoversStrips | Assets/Scripts/LevelBuilder.cs:734-740 | The regions left cover the strips of the region cut at the coordinates, in order. |
| Subdivision.MatchDivisions | Assets/Scripts/LevelBuilder.cs:725-742 | Cutting the region to match its neighbours ahead extends the graph and keeps `allRegions` directionally symmetric. |
| Subdivision.PiecesAreStrips | Assets/Scripts/LevelBuilder.cs:734-740 | Regions covering the strips are non-empty, lie inside the box and border each other on the split side. |
| Subdivision.MatchDivisionsYieldsStrips | Assets/Scripts/LevelBuilder.cs:725-742 | The cuts leave non-empty strips of the region, each inside it and bordering the next on the split side. |
| Subdivision.MatchPair | Assets/Scripts/LevelBuilder.cs:750-769 | The region is split on the line between `a` and `b`, the second half is an ordinary region, and `allRegions` stays directionally symmetric. |
| Subdivision.MatchNeighbours | Assets/Scripts/LevelBuilder.cs:744-771 | Cutting the region between each consecutive pair of adjacent regions extends the graph and keeps `allRegions` directionally symmetric. |
| Merging.MergeCandidates | Assets/Scripts/LevelBuilder.cs:599-615 | The candidates are the regions listed in the direction, or `None` when one of them is a room or has a room ahead. |
| Merging.AbsorbEdges | Assets/Scripts/LevelBuilder.cs:627-635 | Absorbing a candidate's list keeps the graph well formed, the set of regions unchanged and `allRegions` directionally symmetric. |
| Merging.AbsorbEdgesLinks | Assets/Scripts/LevelBuilder.cs:627-635 | Every region seen lies outside the candidates and is linked with the merged region. |
| Merging.AbsorbEdgesSeesAll | Assets/Scripts/LevelBuilder.cs:627-635 | Every listed region outside the candidates ends up seen, so each is connected once. |
| Merging.AbsorbEdgesLeavesCandidates | Assets/Scripts/LevelBuilder.cs:627-635 | The candidates' own lists are untouched. |
| Merging.AbsorbEdgesKeepsSeen | Assets/Scripts/LevelBuilder.cs:624-632 | What has been seen stays seen. |
| Merging.Discard | Assets/Scripts/LevelBuilder.cs:636 | The candidate leaves `allRegions`; nothing else changes, and the regions left stay mirrored. |
| Merging.AbsorbAll | Assets/Scripts/LevelBuilder.cs:625-637 | The candidates are absorbed and removed, the graph is extended, and `allRegions` stays directionally symmetric. |
| Merging.AbsorbAllInherits | Assets/Scripts/LevelBuilder.cs:625-637 | The merged region is linked with every outside region a candidate listed. |
| Merging.MergeOnce | Assets/Scripts/LevelBuilder.cs:597-638 | A merge happens only when allowed and with more than one candidate; the merged region covers the candidates' bounding box, and a merge keeps `allRegions` directionally symmetric. |
| Merging.MergeOnceAbsorbs | Assets/Scripts/LevelBuilder.cs:617-637 | After a merge the candidates have left `allRegions`, the merged region encloses each, and it is linked with every outside region a candidate was linked with. |
| Merging.Merge | Assets/Scripts/LevelBuilder.cs:597-642 | Merging extends the graph, a refused merge changes nothing, and `allRegions` stays directionally symmetric. |
| Disabling.TestRegions | Assets/Scripts/LevelBuilder.cs:301-304 | The test aggregate starts with the region itself and holds only regions of the graph. |
| Disabling.AnyOpen | Assets/Scripts/LevelBuilder.cs:316 | The `Any` holds exactly when some listed region is an enabled ordinary region. |
| Disabling.DisableSmall | Assets/Scripts/LevelBuilder.cs:299-324 | Only flags change (never turned on), and the region stays enabled exactly when its test regions leave room for a minimum-size room. |
| Disabling.Cascade | Assets/Scripts/LevelBuilder.cs:311-322 | The cascade over the disabled region's list only turns flags off, and every listed ordinary region that has no enabled ordinary neighbour ends disabled. |
| Disabling.ClosedStaysClosed | Assets/Scripts/LevelBuilder.cs:316 | Once an ordinary region has no enabled ordinary neighbour, turning flags off cannot give it one. |
| Disabling.CascadeStep | Assets/Scripts/LevelBuilder.cs:311-322 | One turn of the loop settles its neighbour, and the neighbours still to come keep their closed state. |
| Disabling.OnlyDisablesExtends | Assets/Scripts/LevelBuilder.cs:306 | Changing flags keeps the graph well formed and extends it. |
| Disabling.OnlyDisablesKeepsSymmetry | Assets/Scripts/LevelBuilder.cs:299-324 | Turning flags off leaves every list alone, so `allRegions` stays directionally symmetric. |
| Disabling.DisablingShrinks | Assets/Scripts/LevelBuilder.cs:316-319 | Disabling an enabled ordinary region shrinks the enabled set, which bounds the recursion. |
| Placement.CreatePieces | Assets/Scripts/LevelBuilder.cs:478-493 | Nine slots. The middle slot is the room; each other slot is a new region over its piece, or empty. The slots name distinct regions, and `allRegions` is unchanged. |
| Placement.CreatePiecesKeepsSymmetry | Assets/Scripts/LevelBuilder.cs:478-493 | The new pieces start unconnected, so they are mirrored with each other and with every region the symmetry held for. |
| Placement.Present | Assets/Scripts/LevelBuilder.cs:472-490 | `newRegions` lists exactly the regions of the filled slots. |
| Placement.PresentNoDups | Assets/Scripts/LevelBuilder.cs:472-490 | `newRegions` names each region once. |
| Placement.NeighbourPairs | Assets/Scripts/LevelBuilder.cs:496-516 | The visited pairs are filled slots, each next along z or along x. |
| Placement.ConnectPairs | Assets/Scripts/LevelBuilder.cs:508-512 | Connecting the pairs keeps the graph well formed and only adds entries. |
| Placement.ConnectPairsKeepsSymmetry | Assets/Scripts/LevelBuilder.cs:508-512 | The pair loop keeps directional symmetry among any regions it held for. |
| Placement.ConnectPairsLinks | Assets/Scripts/LevelBuilder.cs:496-516 | Every visited pair whose rectangles touch ends up linked. |
| Placement.ConnectPieces | Assets/Scripts/LevelBuilder.cs:496-516 | The connecting loop keeps the graph well formed and only adds entries. |
| Placement.ConnectPiecesKeepsSymmetry | Assets/Scripts/LevelBuilder.cs:496-516 | Connecting the pieces keeps directional symmetry among any regions it held for. |
| Placement.ConnectPiecesLinks | Assets/Scripts/LevelBuilder.cs:496-516 | Every pair of filled neighbouring slots is linked, along z and along x. |
| Placement.AddRange | Assets/Scripts/LevelBuilder.cs:963-969 | The regions are appended to `allRegions` in order. |
| Placement.AdjacentTo | Assets/Scripts/LevelBuilder.cs:531-540 | `adjacentRegions` holds exactly the new regions that border the connected region, in order. |
| Placement.ConnectAll | Assets/Scripts/LevelBuilder.cs:544-547 | Connecting each adjacent region with the target keeps the graph well formed, only adds entries and keeps `allRegions` directionally symmetric. |
| Placement.ConnectAllLinks | Assets/Scripts/LevelBuilder.cs:544-547 | Every listed region is linked with the target. |
| Placement.StitchEdges | Assets/Scripts/LevelBuilder.cs:525-553 | Handing over a reconstructed region's connections extends the graph and keeps `allRegions` directionally symmetric. |
| Placement.Stitch | Assets/Scripts/LevelBuilder.cs:521-555 | Stitching the intersected regions' connections onto the new regions extends the graph and keeps `allRegions` directionally symmetric. |
| Placement.StitchRemoves | Assets/Scripts/LevelBuilder.cs:521-523 | Every intersected region has left `allRegions` once the stitching is done, and stays out. |
| Placement.SettleDirectionOutward | Assets/Scripts/LevelBuilder.cs:568-586 | Every slot but the middle settles in a real direction, and its piece lies beyond the room on that side. |
| Placement.Settle | Assets/Scripts/LevelBuilder.cs:560-594 | The settling loop extends the graph and keeps `allRegions` directionally symmetric. |
| Placement.Intersecting | Assets/Scripts/LevelBuilder.cs:467 | The intersecting regions are exactly the aggregate's regions that the room meets. |
| Placement.Carve | Assets/Scripts/LevelBuilder.cs:467-518 | The pieces are created, connected and listed; the room joins `allRegions`. When the room was mirrored with every listed region, the new `allRegions` is directionally symmetric. |
| Placement.CarveKeepsSymmetry | Assets/Scripts/LevelBuilder.cs:478-518 | Creating and connecting the pieces, then listing them with the room, leaves `allRegions` directionally symmetric when the room was mirrored with every listed region. |
| Placement.SubdivideAroundRoom | Assets/Scripts/LevelBuilder.cs:465-595 | The room joins `allRegions`, every other region that joins is new, and no listed room leaves. When the room was mirrored with every listed region, `allRegions` ends directionally symmetric. |
| Placement.SubdivideRemovesIntersecting | Assets/Scripts/LevelBuilder.cs:521-523 | Every intersected region of the aggregate has left `allRegions` once the room is in. |
| Placement.AddRoom | Assets/Scripts/LevelBuilder.cs:453-457 | A new room over the rectangle is created with the next id, is listed, and the graph is extended. Directional symmetry of `allRegions` is preserved. |
| Placement.ProposeRoom | Assets/Scripts/LevelBuilder.cs:332-391 | No room and no draw when the box cannot hold a room of `minRoomSize`. Otherwise at least the two size draws are spent, and a proposed room is between `minRoomSize` and the box or `maxRoomSize` each way. |
| Placement.FirstRoomCentred | Assets/Scripts/LevelBuilder.cs:343-348 | The first room lies inside the box and its opposite margins differ by at most one cell. |
| Placement.PlacedRoomAdjoins | Assets/Scripts/LevelBuilder.cs:351-389 | A later room borders the previous room on the side it was drawn from, with an overlap along that side. |
| Placement.TryAddRoom | Assets/Scripts/LevelBuilder.cs:326-394 | A room is added exactly when one is proposed. A refused proposal leaves the graph as it was. A new room gets the next id, is a listed room and has the proposed rectangle. Directional symmetry of `allRegions` is preserved either way. |
| Level.JoinedSymmetric | Assets/Scripts/LevelBuilder.cs:940-954 | Joining is symmetric for rooms with cells. |
| Level.ProposedRoomJoined | Assets/Scripts/LevelBuilder.cs:351-389 | A room proposed beside a previous room is joined to it along a side of at least two cells. |
| Level.DisableAround | Assets/Scripts/LevelBuilder.cs:108-115 | Disabling around the new room only turns flags off and extends the graph. |
| Level.TryConnections | Assets/Scripts/LevelBuilder.cs:95-119 | When no connection takes a room, the graph is unchanged. Otherwise a new room, at least `minRoomSize` each way, is the next id and listed, and the graph is extended. It is joined to the previous room when both are at least 2×2. Directional symmetry of `allRegions` is preserved. |
| Level.Reindex | Assets/Scripts/LevelBuilder.cs:128-131 | The first `n` entries get their position as `index`, the rest are unchanged. |
| Level.PlaceRooms | Assets/Scripts/LevelBuilder.cs:92-141 | The loop places at most `roomCount - i` more rooms, keeps the graph well formed and keeps `allRegions` directionally symmetric. |
| Level.PlaceRoomsKeepsChain | Assets/Scripts/LevelBuilder.cs:92-141 | The loop keeps `allRooms` a chain of distinct rooms, each joined to the next and indexed by position, across the single reversal. |
| Level.ChainGrowsOn | Assets/Scripts/LevelBuilder.cs:103-117 | A placed room is appended and the chain property carries on from it. |
| Level.ChainTurnsRound | Assets/Scripts/LevelBuilder.cs:121-134 | When nothing fits, the list is reversed and re-indexed, and the loop carries on from the first room; the rooms it ends with still form an indexed chain. |
| Level.FirstRegion | Assets/Scripts/LevelBuilder.cs:76-78 | The whole level is one ordinary region of `maxLevelSize` square, with no connections. |
| Level.PlaceFirstRoom | Assets/Scripts/LevelBuilder.cs:88 | The first room is placed exactly when a room of `minRoomSize` fits the level; the graph it leaves is directionally symmetric. |
| Level.FirstProposalFits | Assets/Scripts/LevelBuilder.cs:332-337 | With no previous room a room is proposed exactly when the box fits one. |
| Level.GrowChain | Assets/Scripts/LevelBuilder.cs:88-141 | The room loop from the first room yields between 1 and `max(1, fixedRoomCount)` rooms and keeps `allRegions` directionally symmetric. |
| Level.BuildRooms | Assets/Scripts/LevelBuilder.cs:74-141 | The room loop fails exactly when the count draw throws or the first room does not fit. Otherwise it yields between 1 and `max(1, fixedRoomCount)` rooms, because the drawn count is discarded, and the region graph it leaves is directionally symmetric. |
| Level.BuildRoomsChain | Assets/Scripts/LevelBuilder.cs:74-141 | After the room loop, `allRooms` is a chain of rooms, each joined to the next, with `allRooms[j].index == j`. |
| Level.DoorwayOnBothRings | Assets/Scripts/LevelBuilder.cs:149-187 | The doorway lies on the wall ring of both rooms, on the floor of neither, at a free coordinate in the half-open range of shared coordinates. |
| Level.AddDoorways | Assets/Scripts/LevelBuilder.cs:149-195 | The doorway loop keeps one `Doorways` list per room. |
| Level.AddDoorwaysRecords | Assets/Scripts/LevelBuilder.cs:193-194 | Each doorway is recorded in both rooms it joins: the room's list holds the doorway back to the previous room, then the one on to the next. |
| Level.AddDoorwaysOnRings | Assets/Scripts/LevelBuilder.cs:149-195 | Between joined rooms the loop always completes, with one doorway per pair on the rings of both rooms. |
| Level.FloorsAreRoomCells | Assets/Scripts/LevelBuilder.cs:206-219 | The floors are exactly the valid cells of some room. |
| Level.WallsAreRingsWithoutDoors | Assets/Scripts/LevelBuilder.cs:221-246 | The walls are exactly the ring cells of some room that are not doorways. |
| Level.BuildLevel | Assets/Scripts/LevelBuilder.cs:58-249 | A level that is built has at least one room. |
| Level.Furnish | Assets/Scripts/LevelBuilder.cs:143-249 | A furnished level keeps one room per entry of `allRooms`. |
| Level.Dress | Assets/Scripts/LevelBuilder.cs:197-249 | The floor and wall loops place exactly the walls of the ring-minus-doorways definition, and move the generator by one pick per floor cell visited (when there are floor materials) plus one per newly placed wall (when there are wall materials). |
| Level.BuildLevelLaws | Assets/Scripts/LevelBuilder.cs:58-249 | Failure happens exactly when the count draw throws or the first room does not fit. Otherwise the rooms form an indexed chain, one doorway on both rings joins each consecutive pair, and the walls close every room except at doorways. Every room is at least `minRoomSize` cells each way, consecutive rooms share no floor cell, and the region graph is well formed and directionally symmetric. |
| Level.LinkedRoomsApart | Assets/Scripts/LevelBuilder.cs:351-389 | Rooms joined along a side share no floor cell. |
| Level.LevelFromChain | Assets/Scripts/LevelBuilder.cs:143-249 | On a chain of rooms the passes always succeed and leave a linked, tiled level. |
| Level.LevelLinked | Assets/Scripts/LevelBuilder.cs:149-195 | Consecutive rooms are linked by a doorway recorded in both. |
| Level.LevelTiled | Assets/Scripts/LevelBuilder.cs:197-249 | Floors are room cells, and walls are ring cells that are not doorways. |
| Rooms.Row | Assets/Scripts/PathBuilder.cs:192-196 | One floor row: its cells are valid cells of the room, from the left. |
| Rooms.CellsAreFloor | Assets/Scripts/PathBuilder.cs:192-196 | `Cells` lists exactly the cells `IsValidCellForRoom` accepts: `Left <= x < Right` and `Back <= y < Front`. |
| Rooms.CellsDistinct | Assets/Scripts/PathBuilder.cs:58 | `Cells` lists each floor cell once. |
| Rooms.RingIsBorder | Assets/Scripts/LevelBuilder.cs:222-228 | The wall loop visits exactly the border one cell outside the floor. |
| Rooms.RingEnclosesFloor | Assets/Scripts/LevelBuilder.cs:221-246 | The ring and the floor share no cell, and a step out of the floor lands on the floor or the ring. |
| Paths.PickEntryAsWritten | Assets/Scripts/PathBuilder.cs:91-122 | As written: the draw fails exactly when its range is reversed; the entry direction is a real direction. |
| Paths.EntryAsWrittenMissesSmallRoom | Assets/Scripts/PathBuilder.cs:99-118 | In a 2×2 room the as-written entry node lies off the room's floor, whichever side is drawn. |
| Paths.EntryAsWrittenFitsLargerRoom | Assets/Scripts/PathBuilder.cs:99-118 | With three or more cells each way the as-written node is a floor cell. |
| Paths.PickEntryNode | Assets/Scripts/PathBuilder.cs:91-122 | The corrected entry makes the source's draws and fails exactly when the source's range is reversed. It returns the source's direction and generator. |
| Paths.EntryNodeOnFloor | Assets/Scripts/PathBuilder.cs:91-122 | For rooms of at least 2×2 the corrected entry succeeds with a floor cell, facing away from the side drawn. It equals the source's node whenever that node is a floor cell. |
| Paths.ExitDirection | Assets/Scripts/PathBuilder.cs:124-138 | The four answers each hold exactly for cells at `Front`, `Back - 1`, `Left - 1` or `Right`, with the x span checked first; `None` otherwise. |
| Paths.RingCellsHaveASide | Assets/Scripts/PathBuilder.cs:124-138 | Every cell of a room's wall ring has a side. |
| Paths.ExitInvertsDoorway | Assets/Scripts/PathBuilder.cs:140-147 | The exit direction inverts the doorway rule: the doorway lies on the side where the next room borders, one step back is a floor cell of the current room, and one step on is a floor cell of the next. |
| Paths.FirstTo | Assets/Scripts/PathBuilder.cs:142 | The first doorway leading to the room, or none when no doorway does. |
| Paths.FindDoorway | Assets/Scripts/PathBuilder.cs:140-147 | It succeeds exactly when a doorway to the next index exists and has a side, and returns the cell one step back from it together with its side. |
| Paths.FindDoorwaySucceeds | Assets/Scripts/PathBuilder.cs:140-147 | In a level `BuildLevel` made, every room but the last finds its doorway. |
| Paths.Step | Assets/Scripts/PathBuilder.cs:159-185 | The direction is kept exactly when going straight neither moves away nor leaves the room. Otherwise it turns a quarter. The next cell is a unit step in the new direction. |
| Paths.WalkFrom | Assets/Scripts/PathBuilder.cs:156-187 | The loop appends a chain of unit steps, at most as many as the iterations left, and returns the last cell appended. |
| Paths.WalkBetween | Assets/Scripts/PathBuilder.cs:149-190 | At most `Magnitude + 49` unit steps are appended. The walk returns the last cell appended, or `from` when none is, and ends on the target when fewer steps were taken than the bound. |
| Paths.WalkKeepsCourse | Assets/Scripts/PathBuilder.cs:160-163 | When going straight is allowed, the first cell is straight ahead. |
| Paths.Unvisited | Assets/Scripts/PathBuilder.cs:58 | The candidates are exactly the room cells not yet visited. |
| Paths.VisitNodes | Assets/Scripts/PathBuilder.cs:56-64 | The waypoints are distinct, unvisited floor cells, and the appended path is a chain of unit steps from the current cell. |
| Paths.VisitNodesSucceeds | Assets/Scripts/PathBuilder.cs:56-64 | With fewer waypoints than floor cells the waypoint loop always completes. |
| Paths.RoomLeg | Assets/Scripts/PathBuilder.cs:45-76 | One room appends a chain of unit steps and returns its end. The room's waypoints are fewer than `maxNodes`, distinct and on its floor. |
| Paths.Legs | Assets/Scripts/PathBuilder.cs:45-77 | The room loop appends a contiguous chain and gives every room its waypoints. |
| Paths.LegsSucceed | Assets/Scripts/PathBuilder.cs:45-77 | On a level's rooms the room loop always completes. |
| Paths.BuildPath | Assets/Scripts/PathBuilder.cs:36-89 | The path is contiguous from the entry node, and every room's waypoints are fewer than its bound, distinct and on its floor. |
| Paths.BuildPathSucceeds | Assets/Scripts/PathBuilder.cs:36-89 | On the rooms of a level `BuildLevel` made whose first room is at least 2×2, `BuildPath` always completes. |
| Paths.LevelThenPath | Assets/Scripts/PathBuilder.cs:36-89 | With a minimum room size of at least two, whenever `BuildLevel` succeeds, `BuildPath` on its rooms does too. |
| Pool.Items | Assets/Scripts/ObjectPool.cs:21 | The free list is read off the linked entries, next first. |
| Pool.Empty | Assets/Scripts/ObjectPool.cs:21-27 | A new pool has no entries and a zero count. |
| Pool.Add | Assets/Scripts/ObjectPool.cs:29-37 | The entity becomes the head, `Count` rises by one, and the next `TryGet` returns it and restores the pool. |
| Pool.TryGet | Assets/Scripts/ObjectPool.cs:39-49 | A non-empty pool returns its head and drops `Count` by one. An empty pool returns `default` and is unchanged. |
| Pool.CountIsLength | Assets/Scripts/ObjectPool.cs:21-47 | From a new pool, `Count` equals the free list's length after any calls, so it is never negative. |
| Trackers.New | Assets/Scripts/DungeonEntityTracker.cs:15-19 | A new tracker has nothing shown and an empty pool. |
| Trackers.Contains | Assets/Scripts/DungeonEntityTracker.cs:21-24 | `Contains` is membership of the dictionary's keys. |
| Trackers.Count | Assets/Scripts/DungeonEntityTracker.cs:26-32 | `Count` is the dictionary's size. |
| Trackers.ViewSize | Assets/Scripts/DungeonEntityTracker.cs:26-32 | The number of entries is the dictionary's size. |
| Trackers.AddToCell | Assets/Scripts/DungeonEntityTracker.cs:34-38 | A present cell fails. Otherwise the entity is shown at the cell, `Contains` holds and `Count` rises by one. |
| Trackers.RemoveFromCell | Assets/Scripts/DungeonEntityTracker.cs:40-51 | The answer is whether the cell was present. If it was, the entity is hidden and pooled, the cell forgotten and `Count` falls by one; otherwise nothing changes. |
| Trackers.RemoveAll | Assets/Scripts/DungeonEntityTracker.cs:53-61 | The dictionary is emptied. The pool gains exactly the shown entities, hidden, so its count grows by the previous `Count`. |
| Trackers.TryGetNext | Assets/Scripts/DungeonEntityTracker.cs:63-66 | The most recently pooled entity, taken off the pool. |
| Trackers.AddThenRemove | Assets/Scripts/DungeonEntityTracker.cs:34-66 | Showing at a free cell and removing again restores the shown set, and `TryGetNext` then returns the entity, hidden. |
| Dungeons.New | Assets/Scripts/DungeonModel.cs:11-19 | A new model is valid, with no path and no enemies. |
| Dungeons.Reset | Assets/Scripts/DungeonModel.cs:38-48 | The path, the enemy map and every tracker are emptied; each tracker's entities are pooled. |
| Dungeons.SetPath | Assets/Scripts/DungeonModel.cs:50-54 | The cells are appended to the existing path; nothing else changes. |
| Dungeons.SetPathTwice | Assets/Scripts/DungeonModel.cs:50-54 | Two calls read back index by index as the concatenation. |
| Dungeons.AddToPath | Assets/Scripts/DungeonBuilder.cs:72 | One cell is appended to the path. |
| Dungeons.GetPathAtIndex | Assets/Scripts/DungeonModel.cs:84-87 | `Path[i]` below the count, `Cell.Zero` at or past it, and a failure for a negative index. |
| Dungeons.GetEnemyAtCell | Assets/Scripts/DungeonModel.cs:72-75 | The enemy at the cell, present exactly when `HasEnemyAtCell` holds. |
| Dungeons.AddEnemyAtCell | Assets/Scripts/DungeonModel.cs:61-65 | An occupied cell fails. Otherwise the cell has the enemy, the count rises by one and no other cell changes. |
| Dungeons.RemoveEnemyAtCell | Assets/Scripts/DungeonModel.cs:77-82 | The answer is whether an enemy was there, and afterwards the cell has none. |
| Dungeons.AddThenRemoveEnemy | Assets/Scripts/DungeonModel.cs:61-82 | Adding an enemy at a free cell and removing it restores the model. |
| Corridors.ChangeDirection | Assets/Scripts/DungeonBuilder.cs:230-235 | A change of ±1 yields a real direction a quarter turn away: clockwise for +1 and counter-clockwise for -1. |
| Corridors.ChangeDirectionRoundTrip | Assets/Scripts/DungeonBuilder.cs:230-235 | Turning one way and then back restores the direction. |
| Corridors.Run | Assets/Scripts/DungeonBuilder.cs:81-86 | The run appends `n` cells, each the previous position plus the facing. |
| Corridors.StraightIsChain | Assets/Scripts/DungeonBuilder.cs:81-86 | A straight run is a chain of unit steps. |
| Corridors.ProbeHits | Assets/Scripts/DungeonBuilder.cs:216-223 | The probe answers `true` exactly when one of the cells ahead is the first path cell. |
| Corridors.WillIntersectPortalAsWritten | Assets/Scripts/DungeonBuilder.cs:212-228 | As written: after the probe, the end test looks at the cell `2 * remaining` steps away. |
| Corridors.AsWrittenMissesEndCell | Assets/Scripts/DungeonBuilder.cs:224-227 | On a six-cell path, running Left from `(2, 1)` with two tiles left ends on the path cell `(0, 1)`. The corrected check answers `true`, the as-written one `false`. |
| Corridors.WillIntersectPortal | Assets/Scripts/DungeonBuilder.cs:212-228 | The corrected check: `true` when the run would step onto the first path cell or end on the path. |
| Corridors.WillIntersectPortalMeaning | Assets/Scripts/DungeonBuilder.cs:212-228 | The corrected check holds exactly when some cell of the run is the first path cell, or the run's end is on the path. |
| Corridors.Turn | Assets/Scripts/DungeonBuilder.cs:88-98 | The drawn turn is taken when it is clear, else the other turn when clear, else the direction is kept. A changed direction is orthogonal and clear. |
| Corridors.Extend | Assets/Scripts/DungeonBuilder.cs:75-99 | The loop keeps the path's prefix and its contiguity, and ends with `max(|path|, tileCount)` cells. |
| Corridors.BuildCorridor | Assets/Scripts/DungeonBuilder.cs:59-99 | The corridor starts at `Cell.Zero`, is contiguous and has exactly `max(1, tileCount)` cells. |
| Floors.CreateFromPool | Assets/Scripts/DungeonBuilder.cs:268-288 | A cell with an entity keeps it. Otherwise the cell becomes the last key and `Count` rises by one. |
| Floors.Appended | Assets/Scripts/DungeonBuilder.cs:237-240 | The keys are exactly the old keys and the added cells, without repeats. |
| Floors.AddFloors | Assets/Scripts/DungeonBuilder.cs:71-85 | The floor keys are the old keys with each new cell appended at its first visit. |
| Floors.FloorsOfPath | Assets/Scripts/DungeonBuilder.cs:104-108 | After `Reset` the floors are the path's cells, each once. |
| Floors.Around | Assets/Scripts/DungeonBuilder.cs:250-256 | The block holds exactly the cells within one step of the floor, diagonals included. |
| Floors.WallCells | Assets/Scripts/DungeonBuilder.cs:247-256 | The wall candidates are exactly the cells near some floor. |
| Floors.Walls | Assets/Scripts/DungeonBuilder.cs:188-195 | The walls are exactly the cells near a floor that are not floors themselves. |
| Floors.WallsEncloseFloors | Assets/Scripts/DungeonBuilder.cs:188-195 | A step from a floor lands on a floor or a wall. |
| EnemySlots.Remove | Assets/Scripts/DungeonBuilder.cs:114 | `List.Remove` takes out one occurrence, when there is one. |
| EnemySlots.RemoveEach | Assets/Scripts/DungeonBuilder.cs:111-120 | After the removals, the remaining cells are exactly those not removed, without repeats. |
| EnemySlots.Candidates | Assets/Scripts/DungeonBuilder.cs:104-120 | The candidates are exactly the floor cells outside the first and last three path cells, without repeats. |
| EnemySlots.Draw | Assets/Scripts/DungeonBuilder.cs:126-133 | The draw takes `n` cells from the choices without replacement. |
| EnemySlots.DrawDistinct | Assets/Scripts/DungeonBuilder.cs:126-133 | Drawn from distinct choices, the cells are distinct choices. |
| EnemySlots.IndexOf | Assets/Scripts/DungeonBuilder.cs:137-138 | The first index of the cell, or -1 exactly when it is not on the path. |
| EnemySlots.Insert | Assets/Scripts/DungeonBuilder.cs:135-140 | Inserting into a key-sorted list keeps it sorted and adds exactly the cell. |
| EnemySlots.Sort | Assets/Scripts/DungeonBuilder.cs:135-140 | The sort is a permutation in key order. |
| EnemySlots.SortedStrictly | Assets/Scripts/DungeonBuilder.cs:135-140 | Sorted distinct path cells have strictly increasing path indices. |
| EnemySlots.ChooseEnemyCells | Assets/Scripts/DungeonBuilder.cs:101-140 | Exactly `min(requested, candidates)` cells are chosen (none for a negative request). They are distinct floor cells outside both ends of the path, sorted by path index. |
| EnemySlots.ChosenCellsAlongPath | Assets/Scripts/DungeonBuilder.cs:110-140 | On the corridor the chosen cells lie strictly between the first and last three path cells, in strictly increasing path order. |
| EnemySlots.Spawn | Assets/Scripts/DungeonBuilder.cs:142-148 | One kind drawn per target cell: on success the stream has moved by exactly the number of cells, the enemy count rises by that number and nothing but the enemy map changes; a failure means some target cell already held an enemy or came earlier in the list. |
| EnemySlots.SpawnFills | Assets/Scripts/DungeonBuilder.cs:142-148 | Spawning at distinct free cells succeeds, the enemy count rises by the number of cells, and each has an enemy. |
| EnemySlots.SpawnKeeps | Assets/Scripts/DungeonBuilder.cs:142-148 | Spawning never removes an enemy. |
| Avatar.New | Assets/Scripts/AvatarModel.cs:34-39 | A new avatar has 5 of 5 health, no kills, index 0, and is alive. |
| Avatar.TakeDamage | Assets/Scripts/AvatarModel.cs:41-48 | Health falls by exactly the amount, without clamping, and nothing else changes. |
| Avatar.HitsToDeath | Assets/Scripts/AvatarModel.cs:41-53 | After `n` one-point hits, health is down by `n`. A new avatar is alive exactly while `n < 5`. |
| Avatar.SetCurrentCellIndex | Assets/Scripts/AvatarModel.cs:17-25 | The setter stores exactly the value and changes nothing else. |
| AvatarControl.Start | Assets/Scripts/AvatarController.cs:53-59 | The controller starts with index 0 recorded as checked. |
| AvatarControl.CellAt | Assets/Scripts/AvatarController.cs:67 | The path cell at an index inside the path; a failure exactly for a negative index. |
| AvatarControl.Update | Assets/Scripts/AvatarController.cs:61-77 | Nothing changes unless due. When due, exactly one point of damage is taken if an enemy stands on the cell, and that index is recorded. |
| AvatarControl.UpdateOncePerCell | Assets/Scripts/AvatarController.cs:63-76 | After an update, further updates change nothing until the avatar moves: damage is taken at most once per cell index. |
| AvatarControl.NextIndex | Assets/Scripts/AvatarController.cs:81-86 | The next index, or 0 when it equals the path length. |
| AvatarControl.HeadingAt | Assets/Scripts/AvatarController.cs:95-113 | Where the offset to the following cell is a unit step, the new heading faces that cell. At the end of the path the heading is kept. |
| AvatarControl.OnBeat | Assets/Scripts/AvatarController.cs:79-118 | The avatar's index becomes the next index. On a wrap the dungeon is the rebuilt one and the heading is forward; otherwise the dungeon is unchanged. |
| AvatarControl.BeatStaysOnPath | Assets/Scripts/AvatarController.cs:81-117 | From a path cell, a beat lands on a path cell. |
| AvatarControl.UnitStepHasDirection | Assets/Scripts/AvatarController.cs:98-107 | The offset of a unit step matches one of the four facings. |
| AvatarControl.FacesNextCell | Assets/Scripts/AvatarController.cs:95-113 | On a contiguous path the avatar faces the cell it will step to next. |
| AvatarControl.OneSwipePerKind | Assets/Scripts/AvatarController.cs:144-147 | Each enemy kind has exactly one killing swipe: Flying–Forward, Magic–Right, Melee–Left; Backward kills nothing. |
| AvatarControl.TargetIndex | Assets/Scripts/AvatarController.cs:134-142 | The target is the current index, bumped by one only when it is not the last and the next beat is near. |
| AvatarControl.HitClipDraw | Assets/Scripts/AvatarController.cs:154-163 | A real swipe costs one draw to choose its hit clip; `None` costs none. The choice fails exactly when the side's clip list is empty, where the source indexes an empty list. |
| AvatarControl.OnSwipe | Assets/Scripts/AvatarController.cs:120-166 | An off-beat swipe changes nothing. On the beat, a matching enemy on the target cell is killed: `killCount` rises by exactly one and the enemy is removed. Kills plus remaining enemies are conserved, and other cells are untouched. A swipe on the beat fails exactly when the avatar's index is negative, or when it kills and the side's clip list is empty. |

## Left out

- Unity objects throughout: GameObjects, transforms, materials, the debug outlines,
  `MoveTo`, sounds and animations. The entity trackers keep an entity id and an active flag in
  place of a GameObject.
- Floating point:
  - the waypoint bound `(int)(Cells.Count() * maxRoomDensity)` is an input (`maxNodes`);
  - the enemy population and `Convert.ToInt32(Floors.Count * enemyPopulation)` are an input
    (`requested`);
  - the beat timing tests of the controller are boolean inputs.
- System.Random is an oracle stream. No statement is made about the actual generator's
  sequence.
- Which members are core but not defined in the source files:
  - `Region`, `Room` and `AggregateRegion` are not part of this model's sources. Rectangles
    follow `Right = Left + Width - 1` and `Front = Back + Depth - 1`. `Room.Cells` is taken to
    list the cells `IsValidCellForRoom` accepts, row by row.
  - `Defs.RotateDirection`, `InverseDirection`, `IsOrthogonal` and `ForEachDirection` are
    defined by their use and by the modular rule of `ChangeDirection`.
  - `CoordinateOffset.Magnitude` and its `<` and `>` are taken as the city-block length and
    its comparison.
  - `Pick` is taken as an element chosen by one draw.
- DungeonModel.GetCellAtIndex (used by `AvatarController`) and `DungeonModel.AddToPath`
  (used by `DungeonBuilder`) are not defined in `DungeonModel.cs`. The model reads them as
  `GetPathAtIndex` and as `SetPath` of one cell.
- `EnemyType` lists `Magic` and `Melee` only, while `AvatarController` uses `Flying`. The model
  has three kinds, with `EnemyTypeCount = 3`.
- Debug.Assert and Debug.Log calls are not modelled. Where a later step depends on an
  asserted fact, the lemmas prove it instead (for example `Rects.MatchCoordinateSeparates`).
- The `SegmentModelDef` room-stamping block of `BuildDungeon`, the braziers and the portals:
  their types are not part of this model.
- `HashSet` and `Dictionary` enumeration order is taken as insertion order. The walls are a
  set.
- Corridors.ChangeDirection: only changes of at least -4 are modelled. There C#'s truncating
  `%` agrees with Dafny's, and the source only passes ±1.
- Corridors.Extend: the segment-length settings must give lengths of at least one
  (`ValidSettings`). With zero-length segments the source loop need not end.
- EnemySlots.Spawn: the enemy objects' pooling in `CreateEnemy` is not modelled. The enemy
  map records the cell and the kind.
- AvatarControl.OnSwipe: when the clip list of the swipe's side is empty the source throws after
  counting the kill and removing the enemy. The model returns a `Failure`, which does not carry
  that changed state.
- Avatar.TakeDamage: health may fall below zero, as in the source. Nothing clamps it.
- AvatarControl.OnBeat: the dungeon rebuilt on a wrap is a parameter, not a call to the
  builder.
- Recursion through the region graph (`Search`, `Merging.Merge`, `Subdivision.SubdivideAlong`,
  `Disabling.DisableSmall`) takes a `fuel` bound; `BuildLevel` passes the number of regions
  created so far. When the fuel runs out the recursion stops where the source would go on.
- Level.BuildRooms: the case where the first room does not fit returns a failure, where
  the source dereferences `null`.
- The 32-bit overflow of the rectangle arithmetic is not modelled: coordinates are unbounded
  integers. Wrap-around is modelled only for `GetHashCode` and `CompareTo`.
- Subdivision.MatchDivisions: states only that the graph is extended and `allRegions` stays directionally symmetric. What the cuts leave is
  stated separately, by `Subdivision.MatchDivisionsYieldsStrips`.
- Subdivision.MatchNeighbours: states only that the graph is extended and `allRegions` stays directionally symmetric; the split made for each
  pair is stated by `Subdivision.MatchPair`.
- Subdivision.Rehome: states only that the graph is extended and `allRegions` stays directionally symmetric. Which half gets each connection
  is stated for the orthogonal case, by `Subdivision.SubdivideRegionConnects`.
- Subdivision.RehomeEdge: states only that the graph is extended and `allRegions` stays directionally symmetric. The choice between splitting
  the neighbour and connecting it to both halves is not stated as a property.
- Placement.Settle: states only that the graph is extended and `allRegions` stays directionally symmetric. That each piece settles outward is
  stated by `Placement.SettleDirectionOutward`, but the merges and cuts it then makes are not.
- Placement.StitchEdges: states only that the graph is extended and `allRegions` stays directionally symmetric. The links it adds are not
  stated as a property.
- Placement.Stitch: states only that the graph is extended, that `allRegions` stays directionally symmetric and, by `Placement.StitchRemoves`,
  that the intersected regions leave `allRegions`.
- Paths.BuildPath: it picks the entry node with the corrected `Paths.PickEntryNode`, not with
  the source's `PickRandomEntryNode`. The draws, the failure and the direction are the source's.
  The node differs only when the source's node lies off the floor. An example is a 2×2 room,
  shown by `Paths.EntryAsWrittenMissesSmallRoom`. There the node is moved onto the nearest floor
  cell. From three cells each way up, the node is always the source's one
  (`Paths.EntryAsWrittenFitsLargerRoom` with `Paths.EntryNodeOnFloor`).
- Paths.BuildPathSucceeds and Paths.LevelThenPath: they are about `Paths.BuildPath`, so they
  inherit the corrected entry node. The corrected entry fails exactly when the source's does,
  and `Paths.LegsSucceed` holds from any starting cell. The source's `BuildPath` would complete
  on the same levels for that reason, but no lemma states it about the source's entry node.
- Corridors.Turn: it consults the corrected `Corridors.WillIntersectPortal`, where the source
  calls the as-written check. The two answers differ only when the cell the run ends on lies
  on the path and the cell the source checks, `2 * remaining` steps away, does not, or the other
  way round. `Corridors.AsWrittenMissesEndCell` gives such a case.
- Corridors.Extend and Corridors.BuildCorridor: they turn through `Corridors.Turn`, so they
  follow the corrected check too. The length and contiguity they promise do not depend on which
  turn is taken.
- Level.PlaceRooms: it keeps the graph symmetric, but it does not state that the rooms it places are
  pairwise disjoint. Only rooms next to each other in `allRooms` are proved apart.
- Level.BuildLevelLaws: it states that consecutive rooms share no floor cell
  (`Level.LinkedRoomsApart`). That any two rooms of the level are disjoint would need the
  regions of the graph to be proved disjoint through every subdivision and merge, and is not
  stated.
- Random.Pick requires a non-empty list; the library throws on an empty one. The callers
  never pass one.

## Findings

| source | as written | input that shows it | evidently intended | confidence | as-written member | corrected member |
|---|---|---|---|---|---|---|
| Assets/Scripts/PathBuilder.cs:99-118 | The free coordinate is drawn from `Next(Left + 1, Right)` (or `Next(Back + 1, Front)`). The fixed one is `Front - 1`, `Right - 1`, `Back + 1` or `Left + 1`. | A 2×2 room at the origin: every side gives a node with a coordinate equal to `Right` or `Front`, off the floor `IsValidCellForRoom` accepts. | The entry node is a floor cell. | not executed | Paths.PickEntryAsWritten, Paths.EntryAsWrittenMissesSmallRoom | Paths.PickEntryNode, Paths.EntryNodeOnFloor |
| Assets/Scripts/DungeonBuilder.cs:212-228 | After the probe loop has moved `currentCell` `remaining` steps, the offset is scaled by `remaining` and applied again. The end check looks `2 * remaining` steps away. | Path `(0,0) (0,1) (0,2) (1,2) (2,2) (2,1)` with `tileCount` 8, run Left from `(2, 1)`: the two remaining tiles end on `(0, 1)`, a path cell, but `(-2, 1)` is the cell checked. | Check the cell where the run of the remaining tiles ends. | not executed | Corridors.WillIntersectPortalAsWritten, Corridors.AsWrittenMissesEndCell | Corridors.WillIntersectPortal, Corridors.WillIntersectPortalMeaning |
