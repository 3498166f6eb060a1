/** `PathBuilder`: the path the avatar follows through the level. It enters the first room on
    one of its sides, walks through a few randomly chosen floor cells of each room, one grid step
    at a time, leaves each room through the doorway to the next and ends in the last room. */
module Paths {
  import opened Grid
  import opened Rects
  import opened Random
  import opened Rooms
  import Level
  import W = Wrappers

  // ---------------------------------------------------------------------------
  // The entry node

  /** `PickRandomEntryNode` as the source has it: a side of the first room is drawn, the free
      coordinate comes from `Next(Left + 1, Right)` (or `Next(Back + 1, Front)`), and the fixed
      one is `Front - 1`, `Right - 1`, `Back + 1` or `Left + 1`. The node faces away from the
      side drawn. The draw throws when the room is narrower than two cells. */
  function PickEntryAsWritten(room: Rect, rng: Rng): (r: W.Result<(Cell, Direction, Rng)>)
    ensures r.Success? ==> r.value.1 != None
    ensures r.Success? <==> EntryRangeFits(room, Pick(rng, ForEachDirection()).0)
  {
    var (start, rng1) := Pick(rng, ForEachDirection());
    if IsVertical(start) then
      if room.Left() + 1 > room.Right() then W.Failure("entry range is empty")
      else
        var (x, rng2) := NextRange(rng1, room.Left() + 1, room.Right());
        var z := if start == Forward then room.Front() - 1 else room.Back() + 1;
        W.Success((Cell(x, z), Inverse(start), rng2))
    else
      if room.Back() + 1 > room.Front() then W.Failure("entry range is empty")
      else
        var (z, rng2) := NextRange(rng1, room.Back() + 1, room.Front());
        var x := if start == Right then room.Right() - 1 else room.Left() + 1;
        W.Success((Cell(x, z), Inverse(start), rng2))
  }

  /** The range the as-written entry draw reads for side `start` is not reversed. */
  predicate EntryRangeFits(room: Rect, start: Direction) {
    if IsVertical(start) then room.width >= 2 else room.depth >= 2
  }

  /** In a room two cells wide and two deep, whichever side is drawn, the as-written entry node
      lies outside the room's floor: the free coordinate is `Left + 1`, which is `Right`. */
  lemma EntryAsWrittenMissesSmallRoom(rng: Rng)
    ensures PickEntryAsWritten(Rect(0, 0, 2, 2), rng).Success?
    ensures !IsValidCell(PickEntryAsWritten(Rect(0, 0, 2, 2), rng).value.0, Rect(0, 0, 2, 2))
  {
  }

  /** With three cells or more each way the as-written entry node is a floor cell. */
  lemma EntryAsWrittenFitsLargerRoom(room: Rect, rng: Rng)
    requires room.width >= 3 && room.depth >= 3
    ensures PickEntryAsWritten(room, rng).Success?
    ensures IsValidCell(PickEntryAsWritten(room, rng).value.0, room)
  {
  }

  /** `v` moved into `[lo, hi]` when it lies outside. */
  function Clamp(v: int, lo: int, hi: int): (r: int)
    requires lo <= hi
    ensures lo <= r <= hi
    ensures lo <= v <= hi ==> r == v
  {
    if v < lo then lo else if v > hi then hi else v
  }

  /** `PickRandomEntryNode` corrected: the same draws, the same failure and the same direction
      as the source, with the node moved onto the nearest floor cell when the source's node
      lies off the floor. */
  function PickEntryNode(room: Rect, rng: Rng): (r: W.Result<(Cell, Direction, Rng)>)
    ensures r.Success? <==> PickEntryAsWritten(room, rng).Success?
    ensures r.Success? ==> r.value.1 == PickEntryAsWritten(room, rng).value.1 && r.value.2 == PickEntryAsWritten(room, rng).value.2
  {
    match PickEntryAsWritten(room, rng)
    case Failure(e) => W.Failure(e)
    case Success((c, d, rng')) =>
      if room.width >= 2 && room.depth >= 2 then
        W.Success((Cell(Clamp(c.x, room.Left(), room.Right() - 1), Clamp(c.y, room.Back(), room.Front() - 1)), d, rng'))
      else W.Success((c, d, rng'))
  }

  /** In a room of at least two cells each way the corrected entry succeeds with a floor cell,
      facing away from the side drawn, and it is the source's node whenever that one is a floor
      cell. */
  lemma EntryNodeOnFloor(room: Rect, rng: Rng)
    requires room.width >= 2 && room.depth >= 2
    ensures PickEntryNode(room, rng).Success?
    ensures var (c, d, _) := PickEntryNode(room, rng).value;
      && IsValidCell(c, room)
      && d == Inverse(Pick(rng, ForEachDirection()).0) && d != None
      && (IsValidCell(PickEntryAsWritten(room, rng).value.0, room) ==> c == PickEntryAsWritten(room, rng).value.0)
  {
  }

  // ---------------------------------------------------------------------------
  // The exit node

  /** `GetDirectionOfExitNode`: the side of the room whose wall the cell sits in, judged first
      along the front and back walls, then along the left and right walls; `None` otherwise. */
  function ExitDirection(room: Rect, c: Cell): (d: Direction)
    ensures d == Forward <==> room.Left() <= c.x < room.Right() && c.y == room.Front()
    ensures d == Backward <==> room.Left() <= c.x < room.Right() && c.y == room.Back() - 1 && c.y != room.Front()
    ensures d == Left <==> !(room.Left() <= c.x < room.Right()) && c.x == room.Left() - 1
    ensures d == Right <==> !(room.Left() <= c.x < room.Right()) && c.x == room.Right() && c.x != room.Left() - 1
  {
    if room.Left() <= c.x < room.Right() then
      if c.y == room.Front() then Forward
      else if c.y == room.Back() - 1 then Backward
      else None
    else
      if c.x == room.Left() - 1 then Left
      else if c.x == room.Right() then Right
      else None
  }

  /** Every cell of the wall ring of a room with cells has a side. */
  lemma RingCellsHaveASide(room: Rect, c: Cell)
    requires Positive(room) && OnRing(room, c)
    ensures ExitDirection(room, c) != None
  {
  }

  /** The exit direction undoes the doorway rule: the doorway placed between joined rooms lies on
      the side of `current` where `next` borders it, one step back from it is a floor cell of
      `current`, and one step on is a floor cell of `next`. */
  lemma ExitInvertsDoorway(current: Rect, next: Rect, rng: Rng)
    requires current.width >= 2 && current.depth >= 2 && next.width >= 2 && next.depth >= 2
    requires Level.Joined(current, next)
    ensures Level.PlaceDoorway(current, next, rng).Success?
    ensures var c := Level.PlaceDoorway(current, next, rng).value.0;
      var d := ExitDirection(current, c);
      && d == TryGetAdjacency(current, next)
      && IsValidCell(Plus(c, Facing(Inverse(d))), current)
      && IsValidCell(Plus(c, Facing(d)), next)
  {
    Level.DoorwayOnBothRings(current, next, rng);
    AdjacencyMeansTouching(current, next, TryGetAdjacency(current, next));
  }

  /** The position in `Doorways` of the first doorway leading to room `to`. */
  function FirstTo(ds: seq<Doorway>, to: int): (r: W.Option<nat>)
    ensures r.Some? ==> r.value < |ds| && ds[r.value].to == to && forall j :: 0 <= j < r.value ==> ds[j].to != to
    ensures r.None? ==> forall j :: 0 <= j < |ds| ==> ds[j].to != to
  {
    if |ds| == 0 then W.None
    else if ds[0].to == to then W.Some(0)
    else
      match FirstTo(ds[1..], to)
      case None => W.None
      case Some(k) => W.Some(k + 1)
  }

  /** `FindDoorwayLeadingToNextRoom`: the first doorway to the room with the next index, its
      side, and the floor cell one step back from it. `First` throws when there is no such
      doorway, and the facing table has no entry for `None`. */
  function FindDoorway(room: Room): (r: W.Result<(Cell, Direction)>)
    ensures r.Success? <==>
      && (exists k :: 0 <= k < |room.doorways| && room.doorways[k].to == room.index + 1)
      && ExitDirection(room.rect, room.doorways[FirstTo(room.doorways, room.index + 1).value].cell) != None
    ensures r.Success? ==>
      var door := room.doorways[FirstTo(room.doorways, room.index + 1).value].cell;
      r.value.1 == ExitDirection(room.rect, door) && Plus(r.value.0, Facing(r.value.1)) == door
  {
    match FirstTo(room.doorways, room.index + 1)
    case None => W.Failure("no doorway leads to the next room")
    case Some(k) =>
      var door := room.doorways[k].cell;
      var d := ExitDirection(room.rect, door);
      if d == None then W.Failure("no facing for None")
      else
        StepBack(door, Inverse(d));
        RotationLaws(d);
        W.Success((Plus(door, Facing(Inverse(d))), d))
  }

  // ---------------------------------------------------------------------------
  // The walk between two nodes

  /** Stepping straight on neither moves away from the target nor leaves the room. */
  predicate KeepsCourse(pos: Cell, to: Cell, dir: Direction, room: Rect)
    requires dir != None
  {
    var ahead := Plus(pos, Facing(dir));
    !OffsetGreater(Distance(ahead, to), Distance(pos, to)) && IsValidCell(ahead, room)
  }

  /** One iteration of the loop of `BuildPathBetweenNodes`: keep the direction when that is
      allowed, otherwise turn clockwise when that gets closer or counter-clockwise would leave
      the room, else counter-clockwise when that gets closer or clockwise would leave the room,
      else toss a coin. The next cell is one step in the new direction. */
  function Step(pos: Cell, to: Cell, dir: Direction, room: Rect, rng: Rng): (r: (Cell, Direction, Rng))
    requires dir != None
    ensures r.1 == dir <==> KeepsCourse(pos, to, dir, room)
    ensures r.1 == dir || r.1 == Rotate(dir, Clockwise) || r.1 == Rotate(dir, CounterClockwise)
    ensures r.0 == Plus(pos, Facing(r.1)) && UnitStep(pos, r.0)
    ensures r.2 == rng || r.2 == Advance(rng)
  {
    if KeepsCourse(pos, to, dir, room) then (Plus(pos, Facing(dir)), dir, rng)
    else
      var cw := Rotate(dir, Clockwise);
      var ccw := Rotate(dir, CounterClockwise);
      var atCw := Plus(pos, Facing(cw));
      var atCcw := Plus(pos, Facing(ccw));
      var here := Distance(pos, to);
      var (d, rng') :=
        if OffsetLess(Distance(atCw, to), here) || !IsValidCell(atCcw, room) then (cw, rng)
        else if OffsetLess(Distance(atCcw, to), here) || !IsValidCell(atCw, room) then (ccw, rng)
        else
          var (b, rng1) := NextBool(rng);
          (if b then cw else ccw, rng1);
      StepIsUnit(pos, d);
      (Plus(pos, Facing(d)), d, rng')
  }

  /** What a walk leaves: the cells appended, the last position and direction, the generator. */
  datatype Walk = Walk(path: seq<Cell>, end: Cell, dir: Direction, rng: Rng)

  /** The iterations the loop still has once `iteration` have run out of `maxIterations`. */
  function Budget(iteration: int, maxIterations: int): nat {
    if iteration + 1 < maxIterations then maxIterations - iteration - 1 else 0
  }

  /** The loop of `BuildPathBetweenNodes` from iteration `iteration`: while the target is not
      reached and `++iteration < maxIterations`, take one step and append it. The facing table
      has no entry for `None`. */
  function WalkFrom(pos: Cell, to: Cell, dir: Direction, room: Rect, rng: Rng, iteration: int, maxIterations: int)
    : (r: W.Result<Walk>)
    ensures r.Failure? <==> dir == None && pos != to && Budget(iteration, maxIterations) > 0
    ensures r.Success? ==>
      && ChainFrom(pos, r.value.path) && r.value.end == ChainEnd(pos, r.value.path)
      && |r.value.path| <= Budget(iteration, maxIterations)
      && (r.value.end == to || |r.value.path| == Budget(iteration, maxIterations))
      && (dir != None ==> r.value.dir != None)
    decreases maxIterations - iteration
  {
    if Magnitude(Distance(pos, to)) == 0 then
      assert pos == to;
      W.Success(Walk([], pos, dir, rng))
    else if iteration + 1 >= maxIterations then W.Success(Walk([], pos, dir, rng))
    else if dir == None then
      assert pos != to;
      W.Failure("no facing for None")
    else
      var (next, dir', rng') := Step(pos, to, dir, room, rng);
      assert dir' != None;
      match WalkFrom(next, to, dir', room, rng', iteration + 1, maxIterations)
      case Failure(e) => W.Failure(e)
      case Success(w) =>
        ChainFromAppend(pos, [next], w.path);
        W.Success(Walk([next] + w.path, w.end, w.dir, w.rng))
  }

  /** `BuildPathBetweenNodes(from, to, sourceDirection, room, fullPath)`: at most
      `Magnitude + 49` unit steps from `from`, ending on `to` unless the iterations run out;
      it returns the last cell appended, or `from` when there is none. */
  function WalkBetween(from: Cell, to: Cell, dir: Direction, room: Rect, rng: Rng): (r: W.Result<Walk>)
    ensures r.Failure? <==> dir == None && from != to
    ensures r.Success? ==>
      && ChainFrom(from, r.value.path) && r.value.end == ChainEnd(from, r.value.path)
      && |r.value.path| < Magnitude(Distance(from, to)) + 50
      && (r.value.end == to || |r.value.path| == Magnitude(Distance(from, to)) + 49)
      && (dir != None ==> r.value.dir != None)
  {
    WalkFrom(from, to, dir, room, rng, 0, Magnitude(Distance(from, to)) + 50)
  }

  /** When the first step may go straight, the walk's first cell is straight ahead. */
  lemma WalkKeepsCourse(from: Cell, to: Cell, dir: Direction, room: Rect, rng: Rng)
    requires dir != None && from != to && KeepsCourse(from, to, dir, room)
    ensures WalkBetween(from, to, dir, room, rng).Success?
    ensures |WalkBetween(from, to, dir, room, rng).value.path| > 0
    ensures WalkBetween(from, to, dir, room, rng).value.path[0] == Plus(from, Facing(dir))
  {
    assert Magnitude(Distance(from, to)) != 0;
  }

  // ---------------------------------------------------------------------------
  // The path through the rooms

  /** The cells of `cs` not yet visited, in order. */
  function Unvisited(cs: seq<Cell>, visited: seq<Cell>): (r: seq<Cell>)
    ensures forall c :: c in r <==> c in cs && c !in visited
    ensures |r| <= |cs|
  {
    if |cs| == 0 then []
    else (if cs[0] in visited then [] else [cs[0]]) + Unvisited(cs[1..], visited)
  }

  /** What the path builder does in one room or more: the cells appended, the waypoints drawn in
      each room, and where it stands. */
  datatype Leg = Leg(path: seq<Cell>, nodes: seq<Cell>, at: Cell, dir: Direction, rng: Rng)

  /** The waypoint loop of one room from the point where `visited` have been drawn: each
      waypoint is drawn from the floor cells not yet visited and walked to. */
  function VisitNodes(room: Rect, n: nat, visited: seq<Cell>, at: Cell, dir: Direction, rng: Rng): (r: W.Result<Leg>)
    ensures r.Success? ==>
      && ChainFrom(at, r.value.path) && r.value.at == ChainEnd(at, r.value.path)
      && |r.value.nodes| == n && Distinct(r.value.nodes)
      && (forall c :: c in r.value.nodes ==> IsValidCell(c, room) && c !in visited)
      && (dir != None ==> r.value.dir != None)
    decreases n
  {
    if n == 0 then W.Success(Leg([], [], at, dir, rng))
    else
      var free := Unvisited(Cells(room), visited);
      if |free| == 0 then W.Failure("no floor cell left to visit")
      else
        var (chosen, rng1) := Pick(rng, free);
        CellsAreFloor(room, chosen);
        match WalkBetween(at, chosen, dir, room, rng1)
        case Failure(e) => W.Failure(e)
        case Success(w) =>
          match VisitNodes(room, n - 1, visited + [chosen], w.end, w.dir, w.rng)
          case Failure(e) => W.Failure(e)
          case Success(rest) =>
            ChainFromAppend(at, w.path, rest.path);
            DistinctConcat([chosen], rest.nodes);
            W.Success(Leg(w.path + rest.path, [chosen] + rest.nodes, rest.at, rest.dir, rest.rng))
  }

  /** One iteration of the room loop of `BuildPath`: the waypoint count is drawn below
      `maxNodes`, the waypoints are visited, and every room but the last is left by walking to
      the cell before its doorway and stepping through it. */
  function RoomLeg(rooms: seq<Room>, i: nat, maxNodes: nat, at: Cell, dir: Direction, rng: Rng): (r: W.Result<Leg>)
    requires i < |rooms|
    ensures r.Success? ==>
      && ChainFrom(at, r.value.path) && r.value.at == ChainEnd(at, r.value.path)
      && RoomNodes(rooms[i].rect, maxNodes, r.value.nodes)
      && (dir != None ==> r.value.dir != None)
  {
    var room := rooms[i];
    var (count, rng1) := NextBelow(rng, maxNodes);
    match VisitNodes(room.rect, count, [], at, dir, rng1)
    case Failure(e) => W.Failure(e)
    case Success(leg) =>
      if i == |rooms| - 1 then W.Success(leg)
      else
        match FindDoorway(room)
        case Failure(e) => W.Failure(e)
        case Success((exit, exitDir)) =>
          match WalkBetween(leg.at, exit, leg.dir, room.rect, leg.rng)
          case Failure(e) => W.Failure(e)
          case Success(w) =>
            var crossing := Plus(w.end, Facing(exitDir));
            StepIsUnit(w.end, exitDir);
            ChainFromAppend(at, leg.path, w.path);
            ChainFromAppend(at, leg.path + w.path, [crossing]);
            W.Success(Leg(leg.path + w.path + [crossing], leg.nodes, crossing, exitDir, w.rng))
  }

  /** What `BuildPath` appends to the dungeon's path: the entry node, the cells stepped through
      after it, the waypoints of each room and the generator. */
  datatype Plan = Plan(entry: Cell, path: seq<Cell>, nodes: seq<seq<Cell>>, rng: Rng)

  /** The room loop of `BuildPath` from room `i`, with the waypoints of the rooms before it in
      `nodes`. */
  function Legs(rooms: seq<Room>, i: nat, maxNodes: seq<nat>, at: Cell, dir: Direction, rng: Rng, nodes: seq<seq<Cell>>)
    : (r: W.Result<(seq<Cell>, seq<seq<Cell>>, Rng)>)
    requires i <= |rooms| == |maxNodes| && |nodes| == i
    requires forall k :: 0 <= k < i ==> RoomNodes(rooms[k].rect, maxNodes[k], nodes[k])
    ensures r.Success? ==>
      && ChainFrom(at, r.value.0) && |r.value.1| == |rooms|
      && forall k :: 0 <= k < |rooms| ==> RoomNodes(rooms[k].rect, maxNodes[k], r.value.1[k])
    decreases |rooms| - i
  {
    if i == |rooms| then W.Success(([], nodes, rng))
    else
      match RoomLeg(rooms, i, maxNodes[i], at, dir, rng)
      case Failure(e) => W.Failure(e)
      case Success(leg) =>
        match Legs(rooms, i + 1, maxNodes, leg.at, leg.dir, leg.rng, nodes + [leg.nodes])
        case Failure(e) => W.Failure(e)
        case Success((path, allNodes, rng')) =>
          ChainFromAppend(at, leg.path, path);
          W.Success((leg.path + path, allNodes, rng'))
  }

  /** The waypoints of one room: fewer than its `maxNodes` (none when that is zero), distinct,
      and floor cells of the room. */
  predicate RoomNodes(room: Rect, maxNodes: nat, nodes: seq<Cell>) {
    |nodes| < Max(1, maxNodes) && Distinct(nodes) && forall c :: c in nodes ==> IsValidCell(c, room)
  }

  /** `BuildPath(dungeon, allRooms)`: the entry node of the first room, then the room loop. The
      waypoint bound of each room, `(int)(Cells.Count() * maxRoomDensity)`, is given as
      `maxNodes`. With no rooms `First` throws. */
  function BuildPath(rooms: seq<Room>, maxNodes: seq<nat>, rng: Rng): (r: W.Result<Plan>)
    requires |maxNodes| == |rooms|
    ensures r.Success? ==> |rooms| > 0 && ChainFrom(r.value.entry, r.value.path) && |r.value.nodes| == |rooms|
    ensures r.Success? ==> forall k :: 0 <= k < |rooms| ==> RoomNodes(rooms[k].rect, maxNodes[k], r.value.nodes[k])
  {
    if |rooms| == 0 then W.Failure("no rooms")
    else
      match PickEntryNode(rooms[0].rect, rng)
      case Failure(e) => W.Failure(e)
      case Success((entry, dir, rng1)) =>
        match Legs(rooms, 0, maxNodes, entry, dir, rng1, [])
        case Failure(e) => W.Failure(e)
        case Success((path, nodes, rng2)) => W.Success(Plan(entry, path, nodes, rng2))
  }

  // ---------------------------------------------------------------------------
  // The path builder never fails on a level the level builder made

  /** Fewer cells visited than there are distinct cells leaves one unvisited. */
  lemma SomeCellUnvisited(cs: seq<Cell>, visited: seq<Cell>)
    requires Distinct(cs) && |visited| < |cs|
    ensures |Unvisited(cs, visited)| > 0
  {
    if |Unvisited(cs, visited)| == 0 {
      assert (set c | c in cs) <= (set c | c in visited) by {
        forall c | c in cs ensures c in visited {
          assert c !in Unvisited(cs, visited);
        }
      }
      DistinctSetSize(cs);
      SetSizeAtMost(visited);
      SubsetSize(set c | c in cs, set c | c in visited);
    }
  }


  lemma {:induction false} VisitNodesSucceeds(room: Rect, n: nat, visited: seq<Cell>, at: Cell, dir: Direction, rng: Rng)
    requires dir != None && |visited| + n <= |Cells(room)|
    ensures VisitNodes(room, n, visited, at, dir, rng).Success?
    decreases n
  {
    if n > 0 {
      CellsDistinct(room);
      SomeCellUnvisited(Cells(room), visited);
      var free := Unvisited(Cells(room), visited);
      var (chosen, rng1) := Pick(rng, free);
      assert WalkBetween(at, chosen, dir, room, rng1).Success?;
      var w := WalkBetween(at, chosen, dir, room, rng1).value;
      assert w.dir != None;
      VisitNodesSucceeds(room, n - 1, visited + [chosen], w.end, w.dir, w.rng);
    }
  }

  /** The rooms and doorways `BuildLevel` leaves: every room is indexed by its position, has
      cells, and lists the doorway back and the doorway on, and doorway `k` lies on the wall
      rings of rooms `k` and `k + 1`. */
  predicate LevelShaped(l: Level.Level) {
    Level.RoomsLinked(l) && Level.DoorsBetweenRooms(l)
  }

  /** In a level built by `BuildLevel`, every room but the last has a doorway to the next room. */
  lemma FindDoorwaySucceeds(l: Level.Level, i: nat)
    requires LevelShaped(l) && i + 1 < |l.rooms|
    ensures FindDoorway(l.rooms[i]).Success?
  {
    var room := l.rooms[i];
    assert room.doorways == Level.RoomDoorways(l.doors, i);
    var k := if i > 0 then 1 else 0;
    assert room.doorways[k] == Doorway(l.doors[i], i + 1);
    var first := FirstTo(room.doorways, i + 1).value;
    assert first == k;
    assert Level.DoorBetween(l.rooms, i, l.doors[i]);
    RingCellsHaveASide(room.rect, l.doors[i]);
  }

  /** The waypoint bound of each room, `(int)(Cells.Count() * maxRoomDensity)` with the density
      between zero and one, is at most the number of its cells. */
  predicate NodeBounds(rooms: seq<Room>, maxNodes: seq<nat>) {
    |maxNodes| == |rooms| && forall k :: 0 <= k < |rooms| ==> maxNodes[k] <= |Cells(rooms[k].rect)|
  }

  lemma {:induction false} LegsSucceed(l: Level.Level, i: nat, maxNodes: seq<nat>, at: Cell, dir: Direction, rng: Rng,
                                       nodes: seq<seq<Cell>>)
    requires LevelShaped(l) && NodeBounds(l.rooms, maxNodes) && dir != None
    requires i <= |l.rooms| && |nodes| == i
    requires forall k :: 0 <= k < i ==> RoomNodes(l.rooms[k].rect, maxNodes[k], nodes[k])
    ensures Legs(l.rooms, i, maxNodes, at, dir, rng, nodes).Success?
    decreases |l.rooms| - i
  {
    if i < |l.rooms| {
      var room := l.rooms[i];
      var (count, rng1) := NextBelow(rng, maxNodes[i]);
      VisitNodesSucceeds(room.rect, count, [], at, dir, rng1);
      var leg := VisitNodes(room.rect, count, [], at, dir, rng1).value;
      if i < |l.rooms| - 1 {
        FindDoorwaySucceeds(l, i);
      }
      assert RoomLeg(l.rooms, i, maxNodes[i], at, dir, rng).Success?;
      var leg' := RoomLeg(l.rooms, i, maxNodes[i], at, dir, rng).value;
      LegsSucceed(l, i + 1, maxNodes, leg'.at, leg'.dir, leg'.rng, nodes + [leg'.nodes]);
    }
  }

  /** On the rooms of a level `BuildLevel` made, `BuildPath` always completes: the path is
      contiguous from the entry node and each room gets its waypoints. */
  lemma BuildPathSucceeds(l: Level.Level, maxNodes: seq<nat>, rng: Rng)
    requires LevelShaped(l) && NodeBounds(l.rooms, maxNodes)
    requires l.rooms[0].rect.width >= 2 && l.rooms[0].rect.depth >= 2
    ensures BuildPath(l.rooms, maxNodes, rng).Success?
  {
    EntryNodeOnFloor(l.rooms[0].rect, rng);
    var (entry, dir, rng1) := PickEntryNode(l.rooms[0].rect, rng).value;
    LegsSucceed(l, 0, maxNodes, entry, dir, rng1, []);
  }

  /** From settings to path: whenever `BuildLevel` succeeds, `BuildPath` on its rooms does. */
  lemma LevelThenPath(s: Level.Settings, rng: Rng, maxNodes: seq<nat>, rng': Rng)
    requires s.minRoomSize >= 2 && Level.BuildLevel(s, rng).Success?
    requires NodeBounds(Level.BuildLevel(s, rng).value.rooms, maxNodes)
    ensures BuildPath(Level.BuildLevel(s, rng).value.rooms, maxNodes, rng').Success?
  {
    Level.BuildLevelLaws(s, rng);
    BuildPathSucceeds(Level.BuildLevel(s, rng).value, maxNodes, rng');
  }
}
