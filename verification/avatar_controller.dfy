/** `AvatarController`: the rules that tie the avatar to the beat. On each beat the avatar steps
    to the next path cell (a new dungeon is built when it steps off the end); a swipe close
    enough to a beat kills the enemy on the current or next cell when the swipe direction
    matches the enemy's kind; once a beat's timing window has passed, an enemy on the avatar's
    cell costs one point of health, once per cell. Sound, animation and timing are left out: the
    timing tests arrive as booleans, the rebuilt dungeon as a parameter. */
module AvatarControl {
  import opened Grid
  import opened Random
  import W = Wrappers
  import opened Dungeons
  import A = Avatar
  import Corridors

  datatype Controller = Controller(
    avatar: A.AvatarModel,
    dungeon: DungeonModel,
    lastCheckedIndex: int,
    /** The yaw the avatar turns to, as the direction whose angle is `90 * (int)direction`. */
    heading: Direction)

  /** `Start`: no collision has been checked yet, which reads as index 0 having been checked. */
  function Start(c: Controller): (r: Controller)
    ensures r.lastCheckedIndex == 0
    ensures r.(lastCheckedIndex := c.lastCheckedIndex) == c
  {
    c.(lastCheckedIndex := 0)
  }

  /** `GetCellAtIndex`, read as `DungeonModel.GetPathAtIndex`. */
  function CellAt(d: DungeonModel, index: int): (r: W.Result<Cell>)
    ensures r.Failure? <==> index < 0
    ensures 0 <= index < |d.path| ==> r == W.Success(d.path[index])
  {
    GetPathAtIndex(d, index)
  }

  // ---------------------------------------------------------------------------
  // Update: collisions

  /** The collision test is due: the avatar has moved since the last check and the beat's
      timing window is over. */
  predicate Due(c: Controller, beatOver: bool) {
    c.lastCheckedIndex != c.avatar.currentCellIndex && beatOver
  }

  /** `Update`: when due, one point of damage if an enemy stands on the avatar's cell, and the
      cell's index recorded as checked. */
  function Update(c: Controller, beatOver: bool): (r: W.Result<Controller>)
    ensures r.Failure? <==> Due(c, beatOver) && c.avatar.currentCellIndex < 0
    ensures r.Success? && !Due(c, beatOver) ==> r.value == c
    ensures r.Success? && Due(c, beatOver) ==>
      && r.value.lastCheckedIndex == c.avatar.currentCellIndex
      && r.value.avatar.currentHealth ==
         c.avatar.currentHealth - (if HasEnemyAtCell(c.dungeon, CellAt(c.dungeon, c.avatar.currentCellIndex).value) then 1 else 0)
      && r.value.(avatar := c.avatar, lastCheckedIndex := c.lastCheckedIndex) == c
      && r.value.avatar.(currentHealth := c.avatar.currentHealth) == c.avatar
  {
    if !Due(c, beatOver) then W.Success(c)
    else
      match CellAt(c.dungeon, c.avatar.currentCellIndex)
      case Failure(e) => W.Failure(e)
      case Success(cell) =>
        var avatar := if HasEnemyAtCell(c.dungeon, cell) then A.TakeDamage(c.avatar, 1) else c.avatar;
        W.Success(c.(avatar := avatar, lastCheckedIndex := c.avatar.currentCellIndex))
  }

  /** An enemy hurts once per cell: after an update past the beat, further updates change
      nothing until the avatar moves. */
  lemma UpdateOncePerCell(c: Controller, beatOver: bool)
    requires Update(c, true).Success?
    ensures Update(Update(c, true).value, beatOver) == Update(c, true)
  {
  }

  // ---------------------------------------------------------------------------
  // OnBeat: movement

  /** The index `OnBeat` moves to: the next one, or 0 past the last path cell. */
  function NextIndex(index: int, count: nat): (r: int)
    ensures r == 0 || r == index + 1
    ensures r == 0 <==> index + 1 == count || index == -1
    ensures 0 <= index < count ==> 0 <= r < count
  {
    if index + 1 == count then 0 else index + 1
  }

  /** The heading after stepping to `index`: the direction of the step to the following cell
      when there is one and it is a facing, else the heading kept. */
  function HeadingAt(d: DungeonModel, index: int, heading: Direction): (r: Direction)
    requires 0 <= index
    ensures 0 <= index < |d.path| - 1 && GetOffsetDirection(Distance(d.path[index], d.path[index + 1])) != None
      ==> r != None && Plus(d.path[index], Facing(r)) == d.path[index + 1]
    ensures !(0 <= index < |d.path| - 1) ==> r == heading
  {
    if index < GetCellCount(d) - 1 then
      var current := CellAt(d, index).value;
      var next := CellAt(d, index + 1).value;
      var direction := GetOffsetDirection(Distance(current, next));
      if direction != None then direction else heading
    else heading
  }

  /** `OnBeat`: the avatar steps to the next path cell and turns toward the one after it; past the
      last cell it starts again at index 0 of `rebuilt`, the dungeon `BuildDungeon` makes,
      facing forward. */
  function OnBeat(c: Controller, rebuilt: DungeonModel): (r: W.Result<Controller>)
    ensures r.Failure? <==> c.avatar.currentCellIndex + 1 != GetCellCount(c.dungeon) && c.avatar.currentCellIndex + 1 < 0
    ensures r.Success? ==> r.value.avatar == A.SetCurrentCellIndex(c.avatar, NextIndex(c.avatar.currentCellIndex, GetCellCount(c.dungeon)))
    ensures r.Success? ==> r.value.lastCheckedIndex == c.lastCheckedIndex
    ensures r.Success? && c.avatar.currentCellIndex + 1 == GetCellCount(c.dungeon) ==>
      r.value.dungeon == rebuilt && r.value.heading == Forward
    ensures r.Success? && c.avatar.currentCellIndex + 1 != GetCellCount(c.dungeon) ==>
      r.value.dungeon == c.dungeon
  {
    var index := c.avatar.currentCellIndex + 1;
    if index == GetCellCount(c.dungeon) then
      W.Success(c.(avatar := A.SetCurrentCellIndex(c.avatar, 0), dungeon := rebuilt, heading := Forward))
    else if CellAt(c.dungeon, index).Failure? then W.Failure(CellAt(c.dungeon, index).error)
    else
      W.Success(c.(avatar := A.SetCurrentCellIndex(c.avatar, index), heading := HeadingAt(c.dungeon, index, c.heading)))
  }

  /** The avatar stays on the path: from a cell of the path, a beat lands on a cell of the path,
      of the rebuilt dungeon when it wraps, provided that dungeon has a path. */
  lemma BeatStaysOnPath(c: Controller, rebuilt: DungeonModel)
    requires 0 <= c.avatar.currentCellIndex < GetCellCount(c.dungeon)
    requires GetCellCount(rebuilt) > 0
    ensures OnBeat(c, rebuilt).Success?
    ensures var r := OnBeat(c, rebuilt).value;
      0 <= r.avatar.currentCellIndex < GetCellCount(r.dungeon)
  {
  }

  /** The offset of a unit step is one of the four facings. */
  lemma UnitStepHasDirection(a: Cell, b: Cell)
    requires UnitStep(a, b)
    ensures GetOffsetDirection(Distance(a, b)) != None
  {
    var o := Distance(a, b);
    assert o == Offset(0, 1) || o == Offset(1, 0) || o == Offset(0, -1) || o == Offset(-1, 0);
  }

  /** On a contiguous corridor the avatar, after a beat that does not wrap, faces the cell it
      will step to next. */
  lemma FacesNextCell(c: Controller, rebuilt: DungeonModel)
    requires Corridors.Contiguous(c.dungeon.path)
    requires 0 <= c.avatar.currentCellIndex < GetCellCount(c.dungeon) - 2
    ensures OnBeat(c, rebuilt).Success?
    ensures var r := OnBeat(c, rebuilt).value;
      var i := r.avatar.currentCellIndex;
      i + 1 < |r.dungeon.path| && Plus(r.dungeon.path[i], Facing(r.heading)) == r.dungeon.path[i + 1]
  {
    var p := c.dungeon.path;
    var i := c.avatar.currentCellIndex + 1;
    UnitStepHasDirection(p[i], p[i + 1]);
  }

  // ---------------------------------------------------------------------------
  // OnSwipe: attacks

  /** The swipe that kills each kind of enemy: forward for flying, right for magic, left for
      melee. */
  predicate Defeats(kind: EnemyType, swipe: Direction) {
    || (kind == Flying && swipe == Forward)
    || (kind == Magic && swipe == Right)
    || (kind == Melee && swipe == Left)
  }

  /** Each kind has exactly one killing swipe, and backward kills nothing. */
  lemma OneSwipePerKind(kind: EnemyType, a: Direction, b: Direction)
    ensures Defeats(kind, a) && Defeats(kind, b) ==> a == b
    ensures exists s :: Defeats(kind, s)
    ensures !Defeats(kind, Backward) && !Defeats(kind, None)
  {
    var s := match kind case Flying => Forward case Magic => Right case Melee => Left;
    assert Defeats(kind, s);
  }

  /** The index a swipe on the beat aims at: the current cell, or the next one when the next
      beat is about to fall and the avatar is not on the last cell. */
  function TargetIndex(index: int, count: nat, nearNextBeat: bool): (r: int)
    ensures r == index + 1 <==> index < count - 1 && nearNextBeat
    ensures r == index || r == index + 1
    ensures 0 <= index < count ==> 0 <= r < count
  {
    if index < count - 1 && nearNextBeat then index + 1 else index
  }

  /** The number of hit clips for the side of a swipe: the left list for left and backward
      swipes, the right list for right and forward ones; `None` plays nothing. */
  function ClipsFor(swipe: Direction, leftClips: nat, rightClips: nat): nat {
    match swipe
    case Left | Backward => leftClips
    case Right | Forward => rightClips
    case None => 0
  }

  /** The hit sound's clip choice: a draw below the number of clips for the swipe's side, then
      the clip at that index. With no clip on that side the draw gives 0 and indexing the empty
      list throws. */
  function HitClipDraw(rng: Rng, swipe: Direction, leftClips: nat, rightClips: nat): (r: W.Result<Rng>)
    ensures r.Failure? <==> swipe != None && ClipsFor(swipe, leftClips, rightClips) == 0
    ensures r.Success? && swipe != None ==> r.value == Advance(rng)
    ensures swipe == None ==> r == W.Success(rng)
  {
    if swipe == None then W.Success(rng)
    else
      var (index, rng') := NextBelow(rng, ClipsFor(swipe, leftClips, rightClips));
      if index < ClipsFor(swipe, leftClips, rightClips) then W.Success(rng')
      else W.Failure("index out of range")
  }

  /** The swipe kills: the target cell holds an enemy of the kind the swipe defeats. */
  predicate Kills(c: Controller, swipe: Direction, nearNextBeat: bool)
    requires c.avatar.currentCellIndex >= 0
  {
    var cell := CellAt(c.dungeon, TargetIndex(c.avatar.currentCellIndex, GetCellCount(c.dungeon), nearNextBeat)).value;
    HasEnemyAtCell(c.dungeon, cell) && Defeats(c.dungeon.enemies[cell].kind, swipe)
  }

  /** `OnSwipe`: a swipe inside the beat's window (`onBeat`) kills the enemy on the target cell
      when the swipe matches its kind: the kill count rises by one and the enemy is removed. The
      hit sound then indexes the clip list of the swipe's side, which throws when it is empty. */
  function OnSwipe(c: Controller, swipe: Direction, onBeat: bool, nearNextBeat: bool,
                   leftClips: nat, rightClips: nat, rng: Rng): (r: W.Result<(Controller, Rng)>)
    ensures r.Failure? <==>
      onBeat && (c.avatar.currentCellIndex < 0
                 || (Kills(c, swipe, nearNextBeat) && ClipsFor(swipe, leftClips, rightClips) == 0))
    ensures !onBeat ==> r == W.Success((c, rng))
    ensures r.Success? && onBeat ==>
      var (c', rng') := r.value;
      var cell := CellAt(c.dungeon, TargetIndex(c.avatar.currentCellIndex, GetCellCount(c.dungeon), nearNextBeat)).value;
      var kill := HasEnemyAtCell(c.dungeon, cell) && Defeats(c.dungeon.enemies[cell].kind, swipe);
      && c'.avatar.killCount == c.avatar.killCount + (if kill then 1 else 0)
      && (kill ==> !HasEnemyAtCell(c'.dungeon, cell) && rng' == Advance(rng))
      && (!kill ==> c' == c && rng' == rng)
      && c'.avatar.(killCount := c.avatar.killCount) == c.avatar
      && c'.dungeon.(enemies := c.dungeon.enemies) == c.dungeon
      && c'.avatar.killCount + GetEnemyCount(c'.dungeon) == c.avatar.killCount + GetEnemyCount(c.dungeon)
      && forall other :: other != cell ==> GetEnemyAtCell(c'.dungeon, other) == GetEnemyAtCell(c.dungeon, other)
  {
    if !onBeat then W.Success((c, rng))
    else if CellAt(c.dungeon, c.avatar.currentCellIndex).Failure? then
      W.Failure(CellAt(c.dungeon, c.avatar.currentCellIndex).error)
    else
      var target := TargetIndex(c.avatar.currentCellIndex, GetCellCount(c.dungeon), nearNextBeat);
      var cell := CellAt(c.dungeon, target).value;
      match GetEnemyAtCell(c.dungeon, cell)
      case Some(enemy) =>
        if Defeats(enemy.kind, swipe) then
          var avatar := c.avatar.(killCount := c.avatar.killCount + 1);
          match HitClipDraw(rng, swipe, leftClips, rightClips)
          case Success(rng') =>
            W.Success((c.(avatar := avatar, dungeon := RemoveEnemyAtCell(c.dungeon, cell).1), rng'))
          case Failure(e) => W.Failure(e)
        else W.Success((c, rng))
      case None => W.Success((c, rng))
  }
}
