/** `LevelBuilder.BuildLevel`: the room loop that grows a chain of rooms out of one square
    region, the doorway placed between each pair of consecutive rooms and the wall rings around
    the rooms. The search depth given to the region searches is the number of regions created
    so far. */
module Level {
  import opened Grid
  import opened Rects
  import opened RegionGraph
  import opened Search
  import opened Disabling
  import opened Placement
  import opened Random
  import opened Rooms
  import W = Wrappers

  /** `LevelBuilder.Settings` without the room density, which only the path builder reads, and
      without the debug outline material and the seed. Of the dungeon settings' material lists
      only the lengths matter here: `floorMaterials` counts `corridorFloorMaterials` and
      `wallMaterials` counts `wallMaterials`. */
  datatype Settings = Settings(minRoomSize: int, maxRoomSize: int, minRoomCount: int, maxRoomCount: int,
                               fixedRoomCount: int, maxLevelSize: int, floorMaterials: nat, wallMaterials: nat)

  /** An entry of `allRooms`: the room's region and its `index` field. */
  datatype Entry = Entry(id: RegionId, index: int)

  /** The state of the room loop: the level so far, the generator and `allRooms`. */
  datatype Builder = Builder(g: Graph, rng: Rng, rooms: seq<Entry>)

  // ---------------------------------------------------------------------------
  // Rooms joined along a side

  /** `b` borders `a` and the side they share is at least two cells long, so a doorway drawn in
      the half-open range of shared coordinates has a range to be drawn from. */
  predicate Joined(a: Rect, b: Rect) {
    var d := TryGetAdjacency(a, b);
    && d != None
    && (IsVertical(d) ==> Max(a.Left(), b.Left()) < Min(a.Right(), b.Right()))
    && (!IsVertical(d) ==> Max(a.Back(), b.Back()) < Min(a.Front(), b.Front()))
  }

  /** Joining is symmetric for rooms with cells. */
  lemma JoinedSymmetric(a: Rect, b: Rect)
    requires Positive(a) && Positive(b) && Joined(a, b)
    ensures Joined(b, a)
  {
    AdjacencySymmetric(a, b);
  }

  /** A room proposed beside a previous room of at least two cells each way, with the minimum
      size at least two, is joined to it. */
  lemma ProposedRoomJoined(box: Rect, prev: Rect, fromDirection: Direction, minRoomSize: int, maxRoomSize: int, rng: Rng)
    requires prev.width >= 2 && prev.depth >= 2 && minRoomSize >= 2 && fromDirection != None
    requires ProposeRoom(box, W.Some(prev), fromDirection, minRoomSize, maxRoomSize, rng).0.Some?
    ensures Joined(prev, ProposeRoom(box, W.Some(prev), fromDirection, minRoomSize, maxRoomSize, rng).0.value)
  {
    PlacedRoomAdjoins(box, prev, fromDirection, minRoomSize, maxRoomSize, rng);
  }

  // ---------------------------------------------------------------------------
  // The room loop

  /** The `foreach` over the new room's connections: each ordinary region that is still enabled
      goes through `DisableSmallRegions` from the direction it lies in. */
  function DisableAround(g: Graph, es: seq<Edge>, i: nat, minRoomSize: int): (g': Graph)
    requires Wf(g) && InStore(g, es) && i <= |es|
    ensures OnlyDisables(g, g') && Extends(g, g')
    decreases |es| - i
  {
    if i == |es| then
      OnlyDisablesExtends(g, g);
      g
    else
      var e := es[i];
      if !IsRoom(g, e.to) && Enabled(g, e.to) then
        var g1 := DisableSmall(g, e.to, e.dir, minRoomSize, g.nextId);
        var g2 := DisableAround(g1, es, i + 1, minRoomSize);
        OnlyDisablesTransitive(g, g1, g2);
        OnlyDisablesExtends(g, g2);
        g2
      else
        DisableAround(g, es, i + 1, minRoomSize)
  }

  /** The inner loop of the room loop: the previous room's connections are tried in turn from
      position `start`, wrapping round, and the first enabled ordinary region that takes a room
      ends the loop. A region that takes no room leaves the level as it was; its draws are
      still spent. */
  function TryConnections(g: Graph, rng: Rng, prev: RegionId, start: nat, j: nat, s: Settings): (r: Placement)
    requires Wf(g) && prev in g.store && j <= |Connections(g, prev)|
    ensures r.room.None? ==> r.g == g
    ensures r.room.Some? ==>
      && Extends(g, r.g) && r.room.value == g.nextId && r.room.value in r.g.store && r.room.value in r.g.live
      && IsRoom(r.g, r.room.value)
      && s.minRoomSize <= Rectangle(r.g, r.room.value).width && s.minRoomSize <= Rectangle(r.g, r.room.value).depth
    ensures SymmetricLive(g) ==> SymmetricLive(r.g)
    ensures (r.room.Some? && s.minRoomSize >= 2 && Rectangle(g, prev).width >= 2 && Rectangle(g, prev).depth >= 2) ==>
      Joined(Rectangle(g, prev), Rectangle(r.g, r.room.value))
    decreases |Connections(g, prev)| - j
  {
    var es := Connections(g, prev);
    if j == |es| then Placement(g, rng, W.None)
    else
      var e := es[(j + start) % |es|];
      assert e.to in g.store && e.dir != None;
      if !IsRoom(g, e.to) && Enabled(g, e.to) then
        var p := TryAddRoom(g, rng, W.Some(prev), e.dir, e.to, s.minRoomSize, s.maxRoomSize, g.nextId);
        if p.room.Some? then
          AddedRoomJoined(g, rng, prev, e, s);
          p
        else
          TryConnections(g, p.rng, prev, start, j + 1, s)
      else
        TryConnections(g, rng, prev, start, j + 1, s)
  }

  /** A room `TryAddRoomToRegion` places from the previous room's connection `e` is joined to
      the previous room. */
  lemma AddedRoomJoined(g: Graph, rng: Rng, prev: RegionId, e: Edge, s: Settings)
    requires Wf(g) && prev in g.store && e.to in g.store && e.dir != None && !IsRoom(g, e.to)
    requires TryAddRoom(g, rng, W.Some(prev), e.dir, e.to, s.minRoomSize, s.maxRoomSize, g.nextId).room.Some?
    ensures var p := TryAddRoom(g, rng, W.Some(prev), e.dir, e.to, s.minRoomSize, s.maxRoomSize, g.nextId);
      s.minRoomSize >= 2 && Rectangle(g, prev).width >= 2 && Rectangle(g, prev).depth >= 2 ==>
      Joined(Rectangle(g, prev), Rectangle(p.g, p.room.value))
  {
    var p := TryAddRoom(g, rng, W.Some(prev), e.dir, e.to, s.minRoomSize, s.maxRoomSize, g.nextId);
    var box := TargetBox(g, e.to, e.dir, g.nextId);
    assert W.Some(Rectangle(p.g, p.room.value))
      == ProposeRoom(box, W.Some(Rectangle(g, prev)), e.dir, s.minRoomSize, s.maxRoomSize, rng).0;
    if s.minRoomSize >= 2 && Rectangle(g, prev).width >= 2 && Rectangle(g, prev).depth >= 2 {
      ProposedRoomJoined(box, Rectangle(g, prev), e.dir, s.minRoomSize, s.maxRoomSize, rng);
    }
  }

  function Reverse<T>(s: seq<T>): (r: seq<T>)
    ensures |r| == |s| && forall k :: 0 <= k < |s| ==> r[k] == s[|s| - 1 - k]
  {
    seq(|s|, k requires 0 <= k < |s| => s[|s| - 1 - k])
  }

  /** `allRooms[j].index = j` for `j < n`. */
  function Reindex(rooms: seq<Entry>, n: int): (r: seq<Entry>)
    ensures |r| == |rooms|
    ensures forall k :: 0 <= k < |rooms| ==> r[k].id == rooms[k].id
    ensures forall k :: 0 <= k < |rooms| && k < n ==> r[k].index == k
    ensures forall k :: 0 <= k < |rooms| && k >= n ==> r[k] == rooms[k]
  {
    seq(|rooms|, k requires 0 <= k < |rooms| => if k < n then Entry(rooms[k].id, k) else rooms[k])
  }

  /** Every entry names a region of `g`. */
  predicate RoomsIn(g: Graph, rooms: seq<Entry>) {
    forall k :: 0 <= k < |rooms| ==> rooms[k].id in g.store
  }

  /** The `for (i = 1; i < roomCount; ++i)` loop from iteration `i`, with `prev` the previous
      room, `first` the first room and `reversed` telling whether the list has been turned round.
      A failed iteration turns the list round once and repeats from the first room; a second
      failure ends the loop. */
  function PlaceRooms(b: Builder, prev: RegionId, first: RegionId, i: int, reversed: bool, roomCount: int, s: Settings)
    : (r: Builder)
    requires Wf(b.g) && prev in b.g.store && first in b.g.store && RoomsIn(b.g, b.rooms)
    ensures Extends(b.g, r.g) && RoomsIn(r.g, r.rooms)
    ensures |b.rooms| <= |r.rooms| <= |b.rooms| + (if i < roomCount then roomCount - i else 0)
    ensures SymmetricLive(b.g) ==> SymmetricLive(r.g)
    decreases if i < roomCount then roomCount - i else 0, if reversed then 0 else 1
  {
    if i >= roomCount then
      Builder(b.g, b.rng, b.rooms)
    else
      var (start, rng1) := NextBelow(b.rng, |Connections(b.g, prev)|);
      var p := TryConnections(b.g, rng1, prev, start, 0, s);
      if p.room.Some? then
        var room := p.room.value;
        var g2 := DisableAround(p.g, Connections(p.g, room), 0, s.minRoomSize);
        OnlyDisablesKeepsSymmetry(p.g, g2);
        ExtendsTransitive(b.g, p.g, g2);
        var rooms := b.rooms + [Entry(room, |b.rooms|)];
        RoomsInSnoc(b.g, g2, b.rooms, Entry(room, |b.rooms|));
        var r := PlaceRooms(Builder(g2, p.rng, rooms), room, first, i + 1, reversed, roomCount, s);
        ExtendsTransitive(b.g, g2, r.g);
        r
      else if !reversed then
        RoomsInReverse(b.g, b.rooms, i);
        PlaceRooms(Builder(b.g, p.rng, Reindex(Reverse(b.rooms), i)), first, first, i, true, roomCount, s)
      else
        Builder(b.g, p.rng, b.rooms)
  }

  /** The whole level: an empty graph holding the first region, outside `allRegions`. */
  function FirstRegion(s: Settings): (r: (Graph, RegionId))
    ensures Wf(r.0) && r.1 in r.0.store && !IsRoom(r.0, r.1) && Connections(r.0, r.1) == []
    ensures Rectangle(r.0, r.1) == Rect(0, 0, s.maxLevelSize, s.maxLevelSize)
  {
    Alloc(Graph(map[], [], 0), Rect(0, 0, s.maxLevelSize, s.maxLevelSize), false)
  }

  /** The room-count draw of `BuildLevel` throws when its range is reversed. */
  predicate CountDrawThrows(s: Settings) {
    s.fixedRoomCount < 1 && s.minRoomCount > s.maxRoomCount + 1
  }

  /** The first room, proposed in the whole level with no previous room. */
  function PlaceFirstRoom(s: Settings, rng: Rng): (p: Placement)
    ensures p.room.None? <==> !SizeFits(Rect(0, 0, s.maxLevelSize, s.maxLevelSize), s.minRoomSize, s.maxRoomSize)
    ensures p.room.Some? ==> Wf(p.g) && RoomOk(p.g, p.room.value, s.minRoomSize)
    ensures p.room.Some? ==> SymmetricLive(p.g)
  {
    var (g1, region) := FirstRegion(s);
    assert LiveSet(g1) == {};
    var p := TryAddRoom(g1, rng, W.None, Forward, region, s.minRoomSize, s.maxRoomSize, g1.nextId);
    IsolatedTargetBox(g1, region, Forward, g1.nextId);
    FirstProposalFits(Rectangle(g1, region), s.minRoomSize, s.maxRoomSize, rng);
    p
  }

  /** With no previous room a room is proposed exactly when the box fits one. */
  lemma FirstProposalFits(box: Rect, minRoomSize: int, maxRoomSize: int, rng: Rng)
    ensures ProposeRoom(box, W.None, Forward, minRoomSize, maxRoomSize, rng).0.Some? <==> SizeFits(box, minRoomSize, maxRoomSize)
  {
  }

  /** The room loop from the first room, in a level where it is the only room. */
  function GrowChain(g: Graph, rng: Rng, first: RegionId, s: Settings): (b: Builder)
    requires Wf(g) && first in g.store
    ensures Wf(b.g) && RoomsIn(b.g, b.rooms) && 1 <= |b.rooms| <= Max(1, s.fixedRoomCount)
    ensures SymmetricLive(g) ==> SymmetricLive(b.g)
  {
    PlaceRooms(Builder(g, rng, [Entry(first, 0)]), first, first, 1, false, s.fixedRoomCount, s)
  }

  /** An entry appended to the list of a later state keeps every entry in the store. */
  lemma RoomsInSnoc(g: Graph, g': Graph, rooms: seq<Entry>, e: Entry)
    requires RoomsIn(g, rooms) && Evolves(g, g') && e.id in g'.store
    ensures RoomsIn(g', rooms + [e])
  {
  }

  lemma RoomsInReverse(g: Graph, rooms: seq<Entry>, n: int)
    requires RoomsIn(g, rooms)
    ensures RoomsIn(g, Reindex(Reverse(rooms), n))
  {
  }

  /** The room loop of `BuildLevel`: the room count is `fixedRoomCount` (a count drawn when that
      is below one is thrown away), the first room is centred in the whole level, and the loop
      grows the chain from it. When the first room does not fit, `BuildLevel` dereferences a
      null room and fails. */
  function BuildRooms(s: Settings, rng: Rng): (r: W.Result<Builder>)
    ensures r.Success? ==> 1 <= |r.value.rooms| <= Max(1, s.fixedRoomCount)
    ensures r.Success? ==> Wf(r.value.g) && RoomsIn(r.value.g, r.value.rooms)
    ensures r.Success? ==> SymmetricLive(r.value.g)
    ensures r.Failure? <==> CountDrawThrows(s) || !SizeFits(Rect(0, 0, s.maxLevelSize, s.maxLevelSize), s.minRoomSize, s.maxRoomSize)
  {
    if CountDrawThrows(s) then W.Failure("room count range is empty")
    else
      var rng1 := if s.fixedRoomCount < 1 then NextRange(rng, s.minRoomCount, s.maxRoomCount + 1).1 else rng;
      var p := PlaceFirstRoom(s, rng1);
      if p.room.None? then W.Failure("first room does not fit in the level")
      else
        W.Success(GrowChain(p.g, p.rng, p.room.value, s))
  }

  /** A region without connections aggregates to itself. */
  lemma IsolatedTargetBox(g: Graph, r: RegionId, direction: Direction, fuel: nat)
    requires r in g.store && Connections(g, r) == []
    ensures FindOrthogonalRegions(g, r, direction, fuel) == [r]
    ensures TargetBox(g, r, direction, fuel) == Rectangle(g, r)
  {
    assert FindAhead(g, [], Rotate(direction, Clockwise), fuel) == [];
    assert FindAhead(g, [], Rotate(direction, CounterClockwise), fuel) == [];
    assert Sideways(g, r, direction, fuel) == [];
    assert NonRoomsAhead(g, Connections(g, r), direction) == [];
    assert StepAhead(g, [r], direction).None?;
  }

  // ---------------------------------------------------------------------------
  // What the room loop keeps

  /** A listed room of `g` with at least `minRoomSize` cells each way. */
  predicate RoomOk(g: Graph, id: RegionId, minRoomSize: int) {
    id in g.store && id in g.live && IsRoom(g, id)
    && Rectangle(g, id).width >= minRoomSize && Rectangle(g, id).depth >= minRoomSize
  }

  /** `allRooms` names distinct listed rooms, and each room is joined to the next. */
  predicate Placed(g: Graph, rooms: seq<Entry>, minRoomSize: int) {
    && (forall k :: 0 <= k < |rooms| ==> RoomOk(g, rooms[k].id, minRoomSize))
    && (forall k, l :: 0 <= k < l < |rooms| ==> rooms[k].id != rooms[l].id)
    && (forall k :: 0 <= k < |rooms| - 1 ==> Joined(Rectangle(g, rooms[k].id), Rectangle(g, rooms[k + 1].id)))
  }

  /** Every room's `index` is its position in `allRooms`. */
  predicate Indexed(rooms: seq<Entry>) {
    forall k :: 0 <= k < |rooms| ==> rooms[k].index == k
  }

  lemma PlacedExtends(g: Graph, g': Graph, rooms: seq<Entry>, minRoomSize: int)
    requires Extends(g, g') && Placed(g, rooms, minRoomSize)
    ensures Placed(g', rooms, minRoomSize)
  {
    forall k | 0 <= k < |rooms| ensures RoomOk(g', rooms[k].id, minRoomSize) {
      assert RoomOk(g, rooms[k].id, minRoomSize);
    }
  }

  /** Appending a fresh room joined to the last one keeps the chain. */
  lemma PlacedSnoc(g: Graph, rooms: seq<Entry>, e: Entry, minRoomSize: int)
    requires Placed(g, rooms, minRoomSize) && |rooms| > 0 && RoomOk(g, e.id, minRoomSize)
    requires forall k :: 0 <= k < |rooms| ==> rooms[k].id != e.id
    requires Joined(Rectangle(g, rooms[|rooms| - 1].id), Rectangle(g, e.id))
    ensures Placed(g, rooms + [e], minRoomSize)
  {
    var rs := rooms + [e];
    forall k | 0 <= k < |rs| - 1 ensures Joined(Rectangle(g, rs[k].id), Rectangle(g, rs[k + 1].id)) {
      if k < |rooms| - 1 {
        assert rs[k] == rooms[k] && rs[k + 1] == rooms[k + 1];
      }
    }
  }

  /** Turning the list round keeps the chain, as joining is symmetric. */
  lemma PlacedReverse(g: Graph, rooms: seq<Entry>, n: int, minRoomSize: int)
    requires Placed(g, rooms, minRoomSize) && minRoomSize >= 1
    ensures Placed(g, Reindex(Reverse(rooms), n), minRoomSize)
  {
    var rs := Reindex(Reverse(rooms), n);
    var m := |rooms|;
    forall k | 0 <= k < m - 1 ensures Joined(Rectangle(g, rs[k].id), Rectangle(g, rs[k + 1].id)) {
      var a := m - 2 - k;
      assert rs[k].id == rooms[a + 1].id && rs[k + 1].id == rooms[a].id;
      assert RoomOk(g, rooms[a].id, minRoomSize) && RoomOk(g, rooms[a + 1].id, minRoomSize);
      JoinedSymmetric(Rectangle(g, rooms[a].id), Rectangle(g, rooms[a + 1].id));
    }
    forall k, l | 0 <= k < l < m ensures rs[k].id != rs[l].id {
      assert rs[k].id == rooms[m - 1 - k].id && rs[l].id == rooms[m - 1 - l].id;
    }
    forall k | 0 <= k < m ensures RoomOk(g, rs[k].id, minRoomSize) {
      assert rs[k].id == rooms[m - 1 - k].id;
    }
  }

  /** A fresh room joined to the last one, in a level that later only has flags turned off,
      extends the chain. */
  lemma ChainGrows(g: Graph, g1: Graph, g2: Graph, rooms: seq<Entry>, room: RegionId, minRoomSize: int)
    requires Wf(g) && Extends(g, g1) && OnlyDisables(g1, g2) && Extends(g, g2)
    requires Placed(g, rooms, minRoomSize) && |rooms| > 0 && room == g.nextId
    requires RoomOk(g1, room, minRoomSize)
    requires Joined(Rectangle(g, rooms[|rooms| - 1].id), Rectangle(g1, room))
    ensures Placed(g2, rooms + [Entry(room, |rooms|)], minRoomSize)
  {
    PlacedExtends(g, g2, rooms, minRoomSize);
    assert RoomOk(g2, room, minRoomSize);
    forall k | 0 <= k < |rooms| ensures rooms[k].id != room {
      assert RoomOk(g, rooms[k].id, minRoomSize);
    }
    PlacedSnoc(g2, rooms, Entry(room, |rooms|), minRoomSize);
  }

  /** The room loop keeps `allRooms` a chain of distinct rooms, each joined to the next, with
      every `index` equal to the room's position, also across the one reversal. */
  lemma {:induction false} PlaceRoomsKeepsChain(b: Builder, prev: RegionId, first: RegionId, i: int, reversed: bool,
                                                roomCount: int, s: Settings)
    requires ChainSoFar(b, prev, first, i, reversed, s)
    ensures Placed(PlaceRooms(b, prev, first, i, reversed, roomCount, s).g,
                   PlaceRooms(b, prev, first, i, reversed, roomCount, s).rooms, s.minRoomSize)
    ensures Indexed(PlaceRooms(b, prev, first, i, reversed, roomCount, s).rooms)
    decreases if i < roomCount then roomCount - i else 0, if reversed then 0 else 1, 1
  {
    if i < roomCount {
      var (start, rng1) := NextBelow(b.rng, |Connections(b.g, prev)|);
      var p := TryConnections(b.g, rng1, prev, start, 0, s);
      if p.room.Some? {
        ChainGrowsOn(b, prev, first, i, reversed, roomCount, s, p);
      } else if !reversed {
        ChainTurnsRound(b, prev, first, i, roomCount, s, p.rng);
      }
    }
  }

  /** The loop state the room loop keeps: a chain of `i` rooms ending at `prev` and, before the
      reversal, starting at `first`. */
  predicate ChainSoFar(b: Builder, prev: RegionId, first: RegionId, i: int, reversed: bool, s: Settings) {
    && Wf(b.g) && prev in b.g.store && first in b.g.store && RoomsIn(b.g, b.rooms) && s.minRoomSize >= 2
    && Placed(b.g, b.rooms, s.minRoomSize) && Indexed(b.rooms) && |b.rooms| == i
    && |b.rooms| > 0 && prev == b.rooms[|b.rooms| - 1].id
    && (!reversed ==> first == b.rooms[0].id)
  }

  /** A room placed beside `prev` is appended and the loop goes on from it. */
  lemma {:induction false} ChainGrowsOn(b: Builder, prev: RegionId, first: RegionId, i: int, reversed: bool,
                                        roomCount: int, s: Settings, p: Placement)
    requires ChainSoFar(b, prev, first, i, reversed, s) && i < roomCount
    requires p == TryConnections(b.g, NextBelow(b.rng, |Connections(b.g, prev)|).1, prev,
                                 NextBelow(b.rng, |Connections(b.g, prev)|).0, 0, s)
    requires p.room.Some?
    ensures var g2 := DisableAround(p.g, Connections(p.g, p.room.value), 0, s.minRoomSize);
      var r := PlaceRooms(Builder(g2, p.rng, b.rooms + [Entry(p.room.value, |b.rooms|)]), p.room.value, first, i + 1,
                          reversed, roomCount, s);
      Placed(r.g, r.rooms, s.minRoomSize) && Indexed(r.rooms)
    decreases if i < roomCount then roomCount - i else 0, if reversed then 0 else 1, 0
  {
    var room := p.room.value;
    var g2 := DisableAround(p.g, Connections(p.g, room), 0, s.minRoomSize);
    ExtendsTransitive(b.g, p.g, g2);
    var rooms := b.rooms + [Entry(room, |b.rooms|)];
    assert RoomOk(b.g, prev, s.minRoomSize);
    ChainGrows(b.g, p.g, g2, b.rooms, room, s.minRoomSize);
    RoomsInSnoc(b.g, g2, b.rooms, Entry(room, |b.rooms|));
    PlaceRoomsKeepsChain(Builder(g2, p.rng, rooms), room, first, i + 1, reversed, roomCount, s);
  }

  /** When no room fits, the list is turned round once and the loop goes on from the first room. */
  lemma {:induction false} ChainTurnsRound(b: Builder, prev: RegionId, first: RegionId, i: int, roomCount: int,
                                           s: Settings, rng: Rng)
    requires ChainSoFar(b, prev, first, i, false, s) && i < roomCount
    ensures var r := PlaceRooms(Builder(b.g, rng, Reindex(Reverse(b.rooms), i)), first, first, i, true, roomCount, s);
      Placed(r.g, r.rooms, s.minRoomSize) && Indexed(r.rooms)
    decreases if i < roomCount then roomCount - i else 0, 1, 0
  {
    var rooms := Reindex(Reverse(b.rooms), i);
    PlacedReverse(b.g, b.rooms, i, s.minRoomSize);
    RoomsInReverse(b.g, b.rooms, i);
    assert rooms[|rooms| - 1].id == first;
    PlaceRoomsKeepsChain(Builder(b.g, rng, rooms), first, first, i, true, roomCount, s);
  }

  lemma GrowChainKeepsChain(g: Graph, rng: Rng, first: RegionId, s: Settings)
    requires Wf(g) && RoomOk(g, first, s.minRoomSize) && s.minRoomSize >= 2
    ensures Placed(GrowChain(g, rng, first, s).g, GrowChain(g, rng, first, s).rooms, s.minRoomSize)
    ensures Indexed(GrowChain(g, rng, first, s).rooms)
  {
    PlaceRoomsKeepsChain(Builder(g, rng, [Entry(first, 0)]), first, first, 1, false, s.fixedRoomCount, s);
  }

  /** When `BuildLevel` gets past the room loop, `allRooms` is a chain of rooms, each joined to
      the next and indexed by its position. */
  lemma BuildRoomsChain(s: Settings, rng: Rng)
    requires s.minRoomSize >= 2
    ensures BuildRooms(s, rng).Success? ==>
      Placed(BuildRooms(s, rng).value.g, BuildRooms(s, rng).value.rooms, s.minRoomSize)
      && Indexed(BuildRooms(s, rng).value.rooms)
  {
    if !CountDrawThrows(s) {
      var rng1 := if s.fixedRoomCount < 1 then NextRange(rng, s.minRoomCount, s.maxRoomCount + 1).1 else rng;
      var p := PlaceFirstRoom(s, rng1);
      if p.room.Some? {
        GrowChainKeepsChain(p.g, p.rng, p.room.value, s);
      }
    }
  }

  // ---------------------------------------------------------------------------
  // Doorways

  /** One iteration of the doorway loop: the fixed coordinate is `current.Front`,
      `current.Back - 1`, `current.Left - 1` or `current.Right` according to the side `next`
      lies on, and the free coordinate is drawn from the half-open range of coordinates the two
      rooms share. The draw throws when that range is reversed. */
  function PlaceDoorway(current: Rect, next: Rect, rng: Rng): W.Result<(Cell, Rng)> {
    var d := TryGetAdjacency(current, next);
    var fixedX := if d == Left then current.Left() - 1 else if d == Right then current.Right() else 0;
    var fixedZ := if d == Forward then current.Front() else if d == Backward then current.Back() - 1 else 0;
    if IsVertical(d) then
      var lo := Max(current.Left(), next.Left());
      var hi := Min(current.Right(), next.Right());
      if lo > hi then W.Failure("doorway range is empty")
      else
        var (x, rng') := NextRange(rng, lo, hi);
        W.Success((Cell(x, fixedZ), rng'))
    else
      var lo := Max(current.Back(), next.Back());
      var hi := Min(current.Front(), next.Front());
      if lo > hi then W.Failure("doorway range is empty")
      else
        var (z, rng') := NextRange(rng, lo, hi);
        W.Success((Cell(fixedX, z), rng'))
  }

  /** Between joined rooms the doorway is always placed, on the wall ring of both rooms, so on
      the floor of neither, at a shared coordinate short of the last shared one. */
  lemma DoorwayOnBothRings(current: Rect, next: Rect, rng: Rng)
    requires Positive(current) && Positive(next) && Joined(current, next)
    ensures PlaceDoorway(current, next, rng).Success?
    ensures var c := PlaceDoorway(current, next, rng).value.0;
      && OnRing(current, c) && OnRing(next, c)
      && !IsValidCell(c, current) && !IsValidCell(c, next)
      && (IsVertical(TryGetAdjacency(current, next)) ==>
            Max(current.Left(), next.Left()) <= c.x < Min(current.Right(), next.Right()))
      && (!IsVertical(TryGetAdjacency(current, next)) ==>
            Max(current.Back(), next.Back()) <= c.y < Min(current.Front(), next.Front()))
  {
    AdjacencyMeansTouching(current, next, TryGetAdjacency(current, next));
  }

  /** The doorway loop from pair `i`: each pair's doorway is added to both rooms' `Doorways`,
      first to `current` pointing at `next`, then to `next` pointing back. */
  function AddDoorways(rects: seq<Rect>, i: nat, rng: Rng, ds: seq<seq<Doorway>>, cells: seq<Cell>)
    : (r: W.Result<(seq<seq<Doorway>>, seq<Cell>, Rng)>)
    requires |ds| == |rects| && i <= |rects|
    ensures r.Success? ==> |r.value.0| == |rects|
    decreases |rects| - i
  {
    if i + 1 >= |rects| then W.Success((ds, cells, rng))
    else
      match PlaceDoorway(rects[i], rects[i + 1], rng)
      case Failure(e) => W.Failure(e)
      case Success((c, rng')) =>
        var ds' := ds[i := ds[i] + [Doorway(c, i + 1)]][i + 1 := ds[i + 1] + [Doorway(c, i)]];
        AddDoorways(rects, i + 1, rng', ds', cells + [c])
  }

  /** The empty `Doorways` lists of newly built rooms. */
  function NoDoorways(n: nat): (ds: seq<seq<Doorway>>)
    ensures |ds| == n && forall k :: 0 <= k < n ==> ds[k] == []
  {
    seq(n, _ => [])
  }

  /** Reference definition of a room's `Doorways` given the doorway cells in pair order: the
      doorway back to the previous room, then the one on to the next. */
  function RoomDoorways(cells: seq<Cell>, k: nat): seq<Doorway> {
    (if 0 < k <= |cells| then [Doorway(cells[k - 1], k - 1)] else [])
      + (if k < |cells| then [Doorway(cells[k], k + 1)] else [])
  }

  /** Each room's list holds the doorways of `cells` that touch it. */
  predicate Recorded(ds: seq<seq<Doorway>>, cells: seq<Cell>) {
    forall k :: 0 <= k < |ds| ==> ds[k] == RoomDoorways(cells, k)
  }

  /** The doorway loop records each doorway in both rooms it joins, as the reference definition
      says. */
  lemma {:induction false} AddDoorwaysRecords(rects: seq<Rect>, i: nat, rng: Rng, ds: seq<seq<Doorway>>, cells: seq<Cell>)
    requires |ds| == |rects| && i <= |rects| && |cells| == i
    requires Recorded(ds, cells)
    requires AddDoorways(rects, i, rng, ds, cells).Success?
    ensures Recorded(AddDoorways(rects, i, rng, ds, cells).value.0, AddDoorways(rects, i, rng, ds, cells).value.1)
    decreases |rects| - i
  {
    if i + 1 < |rects| {
      var (c, rng') := PlaceDoorway(rects[i], rects[i + 1], rng).value;
      var ds' := ds[i := ds[i] + [Doorway(c, i + 1)]][i + 1 := ds[i + 1] + [Doorway(c, i)]];
      var cells' := cells + [c];
      forall k | 0 <= k < |ds'| ensures ds'[k] == RoomDoorways(cells', k) {
        if k == i + 1 {
          assert ds[i + 1] == RoomDoorways(cells, i + 1) == [];
        } else if k < i {
          assert cells'[k] == cells[k];
          if k > 0 { assert cells'[k - 1] == cells[k - 1]; }
        } else if k > i + 1 {
          assert ds[k] == RoomDoorways(cells, k) == [];
        }
      }
      AddDoorwaysRecords(rects, i + 1, rng', ds', cells');
    }
  }

  /** Doorway `k` lies on the rings of rooms `k` and `k + 1`. */
  predicate DoorsOnRings(rects: seq<Rect>, cells: seq<Cell>) {
    forall k :: 0 <= k < |cells| ==> DoorOnRings(rects, k, cells[k])
  }

  predicate DoorOnRings(rects: seq<Rect>, k: int, c: Cell) {
    0 <= k && k + 1 < |rects| && OnRing(rects[k], c) && OnRing(rects[k + 1], c)
  }

  /** Between joined rooms the doorway loop always completes, placing one doorway per pair,
      each on the rings of both rooms it joins. */
  lemma {:induction false} AddDoorwaysOnRings(rects: seq<Rect>, i: nat, rng: Rng, ds: seq<seq<Doorway>>, cells: seq<Cell>)
    requires |ds| == |rects| && i <= |rects| && |cells| == i
    requires forall k :: 0 <= k < |rects| ==> Positive(rects[k])
    requires forall k :: 0 <= k < |rects| - 1 ==> Joined(rects[k], rects[k + 1])
    requires DoorsOnRings(rects, cells)
    ensures AddDoorways(rects, i, rng, ds, cells).Success?
    ensures DoorsOnRings(rects, AddDoorways(rects, i, rng, ds, cells).value.1)
    ensures |AddDoorways(rects, i, rng, ds, cells).value.1| == (if i < |rects| then |rects| - 1 else i)
    decreases |rects| - i
  {
    if i + 1 < |rects| {
      DoorwayOnBothRings(rects[i], rects[i + 1], rng);
      var (c, rng') := PlaceDoorway(rects[i], rects[i + 1], rng).value;
      var ds' := ds[i := ds[i] + [Doorway(c, i + 1)]][i + 1 := ds[i + 1] + [Doorway(c, i)]];
      AddDoorwaysOnRings(rects, i + 1, rng', ds', cells + [c]);
    }
  }

  // ---------------------------------------------------------------------------
  // Floors and walls

  /** The floor cells of the rooms from `i` on. */
  function Floors(rects: seq<Rect>, i: nat): set<Cell>
    requires i <= |rects|
    decreases |rects| - i
  {
    if i == |rects| then {} else (set c | c in Cells(rects[i])) + Floors(rects, i + 1)
  }

  /** The wall loop over the rooms from `i` on: each ring cell that is neither a doorway nor
      already a wall becomes a wall. */
  function PlaceWalls(rects: seq<Rect>, i: nat, doors: set<Cell>, placed: set<Cell>): set<Cell>
    requires i <= |rects|
    decreases |rects| - i
  {
    if i == |rects| then placed else PlaceWalls(rects, i + 1, doors, placed + (Ring(rects[i]) - doors))
  }

  /** The number of cells the floor loop visits in the rooms from `i` on. */
  function CellCount(rects: seq<Rect>, i: nat): nat
    requires i <= |rects|
    decreases |rects| - i
  {
    if i == |rects| then 0 else |Cells(rects[i])| + CellCount(rects, i + 1)
  }

  /** The floor and wall loops over the rooms from `i` on, as far as the generator sees them: a
      material is picked for every floor cell visited when there are floor materials, and for
      every wall newly placed when there are wall materials. The result is the walls placed and
      the generator afterwards. */
  function Dress(rects: seq<Rect>, i: nat, doors: set<Cell>, placed: set<Cell>, rng: Rng, s: Settings): (r: (set<Cell>, Rng))
    requires i <= |rects|
    ensures r.0 == PlaceWalls(rects, i, doors, placed) && placed <= r.0
    ensures r.1.source == rng.source
    ensures r.1.pos == rng.pos + (if s.floorMaterials > 0 then CellCount(rects, i) else 0)
                               + (if s.wallMaterials > 0 then |r.0| - |placed| else 0)
    decreases |rects| - i
  {
    if i == |rects| then (placed, rng)
    else
      var floorDraws := if s.floorMaterials > 0 then |Cells(rects[i])| else 0;
      var added := (Ring(rects[i]) - doors) - placed;
      var wallDraws := if s.wallMaterials > 0 then |added| else 0;
      assert placed + added == placed + (Ring(rects[i]) - doors);
      assert |placed + added| == |placed| + |added| by {
        assert placed * added == {};
      }
      Dress(rects, i + 1, doors, placed + added, Rng(rng.source, rng.pos + floorDraws + wallDraws), s)
  }

  /** Floors are the valid cells of some room. */
  lemma {:induction false} FloorsAreRoomCells(rects: seq<Rect>, i: nat, c: Cell)
    requires i <= |rects|
    ensures c in Floors(rects, i) <==> exists k :: i <= k < |rects| && IsValidCell(c, rects[k])
    decreases |rects| - i
  {
    if i < |rects| {
      FloorsAreRoomCells(rects, i + 1, c);
      CellsAreFloor(rects[i], c);
    }
  }

  /** Walls are exactly the ring cells of some room that are not doorways. */
  lemma {:induction false} WallsAreRingsWithoutDoors(rects: seq<Rect>, i: nat, doors: set<Cell>, placed: set<Cell>, c: Cell)
    requires i <= |rects|
    ensures c in PlaceWalls(rects, i, doors, placed) <==>
      c in placed || (c !in doors && exists k :: i <= k < |rects| && OnRing(rects[k], c))
    decreases |rects| - i
  {
    if i < |rects| {
      WallsAreRingsWithoutDoors(rects, i + 1, doors, placed + (Ring(rects[i]) - doors), c);
      RingIsBorder(rects[i], c);
    }
  }

  // ---------------------------------------------------------------------------
  // BuildLevel

  /** What `BuildLevel` leaves behind: the region graph, `allRooms` with their doorways, the
      doorway, floor and wall cells, and the generator. */
  datatype Level = Level(g: Graph, rooms: seq<Room>, doors: seq<Cell>, floors: set<Cell>, walls: set<Cell>, rng: Rng)

  function RectsOfRooms(g: Graph, rooms: seq<Entry>): (rs: seq<Rect>)
    requires RoomsIn(g, rooms)
    ensures |rs| == |rooms| && forall k :: 0 <= k < |rooms| ==> rs[k] == Rectangle(g, rooms[k].id)
  {
    seq(|rooms|, k requires 0 <= k < |rooms| => Rectangle(g, rooms[k].id))
  }

  /** The `Room` objects: rectangle, `index` and `Doorways` of each entry of `allRooms`. */
  function MakeRooms(rects: seq<Rect>, rooms: seq<Entry>, ds: seq<seq<Doorway>>): (rs: seq<Room>)
    requires |rects| == |rooms| == |ds|
    ensures |rs| == |rooms|
    ensures forall k :: 0 <= k < |rs| ==> rs[k] == Room(rects[k], rooms[k].index, ds[k])
  {
    seq(|rects|, k requires 0 <= k < |rects| => Room(rects[k], rooms[k].index, ds[k]))
  }

  /** `BuildLevel`: the room loop, then the doorways between consecutive rooms, then the floors
      and the walls of each room. */
  function BuildLevel(s: Settings, rng: Rng): (r: W.Result<Level>)
    ensures r.Success? ==> |r.value.rooms| >= 1
  {
    match BuildRooms(s, rng)
    case Failure(e) => W.Failure(e)
    case Success(b) => Furnish(b, s)
  }

  /** The passes after the room loop: doorways, floors and walls. */
  function Furnish(b: Builder, s: Settings): (r: W.Result<Level>)
    requires RoomsIn(b.g, b.rooms)
    ensures r.Success? ==> |r.value.rooms| == |b.rooms| && r.value.g == b.g
  {
    var rects := RectsOfRooms(b.g, b.rooms);
    var placed := AddDoorways(rects, 0, b.rng, NoDoorways(|rects|), []);
    if placed.Failure? then W.Failure(placed.error)
    else
      var (ds, doors, rng') := placed.value;
      var (walls, rng'') := Dress(rects, 0, set c | c in doors, {}, rng', s);
      W.Success(Level(b.g, MakeRooms(rects, b.rooms, ds), doors, Floors(rects, 0), walls, rng''))
  }

  // ---------------------------------------------------------------------------
  // What BuildLevel promises

  /** Room `k` is indexed by its position, has cells, and records the doorways back and on. */
  predicate RoomsLinked(l: Level) {
    && |l.doors| == |l.rooms| - 1
    && (forall k :: 0 <= k < |l.rooms| ==>
          l.rooms[k].index == k && Positive(l.rooms[k].rect) && l.rooms[k].doorways == RoomDoorways(l.doors, k))
    && (forall k :: 0 <= k < |l.rooms| - 1 ==> Joined(l.rooms[k].rect, l.rooms[k + 1].rect))
  }

  /** Every room is at least `minRoomSize` cells wide and deep. */
  predicate RoomsAtLeast(l: Level, minRoomSize: int) {
    forall k :: 0 <= k < |l.rooms| ==> l.rooms[k].rect.width >= minRoomSize && l.rooms[k].rect.depth >= minRoomSize
  }

  /** Consecutive rooms share no floor cell. */
  ghost predicate ConsecutiveApart(l: Level) {
    forall k, c :: 0 <= k < |l.rooms| - 1 && IsValidCell(c, l.rooms[k].rect) ==> !IsValidCell(c, l.rooms[k + 1].rect)
  }

  /** Rooms joined along a side share no floor cell. */
  lemma LinkedRoomsApart(l: Level)
    requires RoomsLinked(l)
    ensures ConsecutiveApart(l)
  {
    forall k, c | 0 <= k < |l.rooms| - 1 && IsValidCell(c, l.rooms[k].rect)
      ensures !IsValidCell(c, l.rooms[k + 1].rect)
    {
      AdjacentRegionsAreDisjoint(l.rooms[k].rect, l.rooms[k + 1].rect, c);
    }
  }

  /** Doorway `k` lies on the wall rings of rooms `k` and `k + 1`. */
  predicate DoorsBetweenRooms(l: Level) {
    forall k :: 0 <= k < |l.doors| ==> DoorBetween(l.rooms, k, l.doors[k])
  }

  predicate DoorBetween(rooms: seq<Room>, k: int, c: Cell) {
    0 <= k && k + 1 < |rooms| && OnRing(rooms[k].rect, c) && OnRing(rooms[k + 1].rect, c)
  }

  /** The floors are the cells of the rooms, and the walls are the ring cells of the rooms that
      are not doorways. */
  ghost predicate Tiled(l: Level) {
    && (forall c :: c in l.floors <==> exists k :: 0 <= k < |l.rooms| && IsValidCell(c, l.rooms[k].rect))
    && (forall c :: c in l.walls <==> c !in l.doors && exists k :: 0 <= k < |l.rooms| && OnRing(l.rooms[k].rect, c))
  }

  /** `BuildLevel` fails only when the room-count draw throws or the first room does not fit;
      otherwise the rooms form a chain, one doorway joins each pair of consecutive rooms on both
      their rings, and the walls close every room in except at the doorways. */
  lemma BuildLevelLaws(s: Settings, rng: Rng)
    requires s.minRoomSize >= 2
    ensures BuildLevel(s, rng).Failure? <==>
      CountDrawThrows(s) || !SizeFits(Rect(0, 0, s.maxLevelSize, s.maxLevelSize), s.minRoomSize, s.maxRoomSize)
    ensures BuildLevel(s, rng).Success? ==>
      RoomsLinked(BuildLevel(s, rng).value) && DoorsBetweenRooms(BuildLevel(s, rng).value)
      && Tiled(BuildLevel(s, rng).value)
    ensures BuildLevel(s, rng).Success? ==> RoomsAtLeast(BuildLevel(s, rng).value, s.minRoomSize)
    ensures BuildLevel(s, rng).Success? ==> ConsecutiveApart(BuildLevel(s, rng).value)
    ensures BuildLevel(s, rng).Success? ==>
      Wf(BuildLevel(s, rng).value.g) && SymmetricLive(BuildLevel(s, rng).value.g)
  {
    if BuildRooms(s, rng).Success? {
      BuildRoomsChain(s, rng);
      LevelFromChain(BuildRooms(s, rng).value, s);
      LinkedRoomsApart(BuildLevel(s, rng).value);
    }
  }

  /** The doorway, floor and wall passes over a chain of rooms. */
  lemma LevelFromChain(b: Builder, s: Settings)
    requires s.minRoomSize >= 1 && RoomsIn(b.g, b.rooms) && Placed(b.g, b.rooms, s.minRoomSize) && Indexed(b.rooms)
    requires |b.rooms| > 0
    ensures Furnish(b, s).Success?
    ensures RoomsLinked(Furnish(b, s).value) && DoorsBetweenRooms(Furnish(b, s).value) && Tiled(Furnish(b, s).value)
    ensures RoomsAtLeast(Furnish(b, s).value, s.minRoomSize)
  {
    var minRoomSize := s.minRoomSize;
    var rects := RectsOfRooms(b.g, b.rooms);
    forall k | 0 <= k < |rects| ensures Positive(rects[k]) && AtLeast(rects[k], minRoomSize) {
      assert RoomOk(b.g, b.rooms[k].id, minRoomSize);
    }
    forall k | 0 <= k < |rects| - 1 ensures Joined(rects[k], rects[k + 1]) {
    }
    AddDoorwaysOnRings(rects, 0, b.rng, NoDoorways(|rects|), []);
    AddDoorwaysRecords(rects, 0, b.rng, NoDoorways(|rects|), []);
    var (ds, doors, rng') := AddDoorways(rects, 0, b.rng, NoDoorways(|rects|), []).value;
    FurnishIs(b, s, ds, doors, rng');
    LevelLinked(Furnish(b, s).value, rects, b.rooms, ds);
    LevelTiled(b.g, b.rooms, rects, ds, doors, Furnish(b, s).value.rng);
    MadeRoomsAtLeast(Furnish(b, s).value, rects, b.rooms, ds, minRoomSize);
  }

  predicate AtLeast(r: Rect, minRoomSize: int) {
    r.width >= minRoomSize && r.depth >= minRoomSize
  }

  lemma MadeRoomsAtLeast(l: Level, rects: seq<Rect>, rooms: seq<Entry>, ds: seq<seq<Doorway>>, minRoomSize: int)
    requires |rects| == |rooms| == |ds| && l.rooms == MakeRooms(rects, rooms, ds)
    requires forall k :: 0 <= k < |rects| ==> AtLeast(rects[k], minRoomSize)
    ensures RoomsAtLeast(l, minRoomSize)
  {
  }

  /** The level `Furnish` builds from the doorway pass's result. */
  lemma FurnishIs(b: Builder, s: Settings, ds: seq<seq<Doorway>>, doors: seq<Cell>, rng: Rng)
    requires RoomsIn(b.g, b.rooms)
    requires AddDoorways(RectsOfRooms(b.g, b.rooms), 0, b.rng, NoDoorways(|b.rooms|), []) == W.Success((ds, doors, rng))
    ensures Furnish(b, s) == W.Success(Level(b.g, MakeRooms(RectsOfRooms(b.g, b.rooms), b.rooms, ds), doors,
      Floors(RectsOfRooms(b.g, b.rooms), 0), PlaceWalls(RectsOfRooms(b.g, b.rooms), 0, set c | c in doors, {}),
      Dress(RectsOfRooms(b.g, b.rooms), 0, set c | c in doors, {}, rng, s).1))
  {
  }

  lemma LevelLinked(l: Level, rects: seq<Rect>, rooms: seq<Entry>, ds: seq<seq<Doorway>>)
    requires |rects| == |rooms| == |ds| && |rooms| > 0 && |l.doors| == |rooms| - 1
    requires l.rooms == MakeRooms(rects, rooms, ds)
    requires Indexed(rooms) && Recorded(ds, l.doors) && DoorsOnRings(rects, l.doors)
    requires forall k :: 0 <= k < |rects| ==> Positive(rects[k])
    requires forall k :: 0 <= k < |rects| - 1 ==> Joined(rects[k], rects[k + 1])
    ensures RoomsLinked(l) && DoorsBetweenRooms(l)
  {
    forall k | 0 <= k < |l.doors| ensures DoorBetween(l.rooms, k, l.doors[k]) {
      assert DoorOnRings(rects, k, l.doors[k]);
    }
  }

  lemma LevelTiled(g: Graph, rooms: seq<Entry>, rects: seq<Rect>, ds: seq<seq<Doorway>>, doors: seq<Cell>, rng: Rng)
    requires |rects| == |rooms| == |ds|
    ensures Tiled(Level(g, MakeRooms(rects, rooms, ds), doors, Floors(rects, 0), PlaceWalls(rects, 0, set c | c in doors, {}), rng))
  {
    var l := Level(g, MakeRooms(rects, rooms, ds), doors, Floors(rects, 0), PlaceWalls(rects, 0, set c | c in doors, {}), rng);
    forall c: Cell ensures c in l.floors <==> exists k :: 0 <= k < |l.rooms| && IsValidCell(c, l.rooms[k].rect) {
      FloorsAreRoomCells(rects, 0, c);
    }
    forall c: Cell ensures c in l.walls <==> c !in l.doors && exists k :: 0 <= k < |l.rooms| && OnRing(l.rooms[k].rect, c) {
      WallsAreRingsWithoutDoors(rects, 0, set c | c in doors, {}, c);
    }
  }
}
