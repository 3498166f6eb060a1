/** The corridor loop of `DungeonBuilder.BuildDungeon`: from `Cell.Zero`, facing forward, the
    corridor grows in straight runs of drawn length, turning left or right after each run unless
    the turn would run into the path, until it holds `tileCount` cells. */
module Corridors {
  import opened Grid
  import opened Random
  import Rects

  /** `ChangeDirection`: the enum ordinal moved by `change`, modulo the four facings. C#'s `%`
      truncates toward zero; the dividend `ordinal + 4 + change` is never negative once
      `change >= -4`, so there it agrees with Dafny's. */
  function ChangeDirection(d: Direction, change: int): (r: Direction)
    requires change >= -4
    ensures r != None
    ensures Ordinal(r) == (Ordinal(d) + change) % 4
    ensures d != None && change == 1 ==> r == Rotate(d, Clockwise)
    ensures d != None && change == -1 ==> r == Rotate(d, CounterClockwise)
  {
    FromOrdinal((Ordinal(d) + 4 + change) % 4)
  }

  /** Turning one way and back again restores the direction. */
  lemma ChangeDirectionRoundTrip(d: Direction)
    requires d != None
    ensures ChangeDirection(ChangeDirection(d, 1), -1) == d
    ensures ChangeDirection(ChangeDirection(d, -1), 1) == d
  {
    RotationLaws(d);
  }

  /** Each cell is the one before it (the first: `pos`) plus the facing of `d`. */
  predicate Straight(pos: Cell, d: Direction, cs: seq<Cell>)
    requires d != None
  {
    && (|cs| > 0 ==> cs[0] == Plus(pos, Facing(d)))
    && (forall i :: 0 < i < |cs| ==> cs[i] == Plus(cs[i - 1], Facing(d)))
  }

  /** The inner `for` loop: `n` applications of the facing of `d` to the current position, each
      new position appended. */
  function Run(pos: Cell, d: Direction, n: nat): (cs: seq<Cell>)
    requires d != None
    ensures |cs| == n && Straight(pos, d, cs)
    decreases n
  {
    if n == 0 then []
    else
      var rest := Run(Plus(pos, Facing(d)), d, n - 1);
      var cs := [Plus(pos, Facing(d))] + rest;
      assert forall i :: 0 < i < n ==> cs[i] == rest[i - 1];
      cs
  }

  /** A straight run is a chain of unit steps. */
  lemma StraightIsChain(pos: Cell, d: Direction, cs: seq<Cell>)
    requires d != None && Straight(pos, d, cs)
    ensures ChainFrom(pos, cs)
  {
    forall i | 0 < i < |cs| ensures UnitStep(cs[i - 1], cs[i]) {
      StepIsUnit(cs[i - 1], d);
    }
    if |cs| > 0 {
      StepIsUnit(pos, d);
    }
  }

  // ---------------------------------------------------------------------------
  // WillIntersectPortal

  /** One step and then `k` more is `k + 1` steps. */
  lemma StepAhead(pos: Cell, f: Offset, k: int)
    ensures Plus(Plus(pos, f), Scale(f, k)) == Plus(pos, Scale(f, k + 1))
  {
    assert f.x * (k + 1) == f.x * k + f.x;
    assert f.y * (k + 1) == f.y * k + f.y;
  }

  /** The probe loop of `WillIntersectPortal`: up to `n` steps of `f` from `pos`, stopping with
      `true` on the first cell of the path; otherwise the position reached. */
  function Probe(start: Cell, pos: Cell, f: Offset, n: int): (r: (bool, Cell))
    decreases n
  {
    if n <= 0 then (false, pos)
    else
      var next := Plus(pos, f);
      if next == start then (true, next)
      else Probe(start, next, f, n - 1)
  }

  /** Without a hit the probe ends `max(0, n)` steps ahead. */
  lemma {:induction false} ProbeEnds(start: Cell, pos: Cell, f: Offset, n: int)
    ensures !Probe(start, pos, f, n).0 ==> Probe(start, pos, f, n).1 == Plus(pos, Scale(f, Rects.Max(0, n)))
    decreases n
  {
    if n > 0 && Plus(pos, f) != start {
      ProbeEnds(start, Plus(pos, f), f, n - 1);
      StepAhead(pos, f, n - 1);
    }
  }

  /** The probe answers `true` exactly when one of the `n` cells ahead is `start`. */
  lemma {:induction false} ProbeHits(start: Cell, pos: Cell, f: Offset, n: int)
    ensures Probe(start, pos, f, n).0 <==> exists k :: 1 <= k <= n && Plus(pos, Scale(f, k)) == start
    decreases n
  {
    if n > 0 {
      var next := Plus(pos, f);
      if next == start {
        assert Plus(pos, Scale(f, 1)) == start;
      } else {
        ProbeHits(start, next, f, n - 1);
        if Probe(start, next, f, n - 1).0 {
          var k :| 1 <= k <= n - 1 && Plus(next, Scale(f, k)) == start;
          StepAhead(pos, f, k);
        }
        if exists k :: 1 <= k <= n && Plus(pos, Scale(f, k)) == start {
          var k :| 1 <= k <= n && Plus(pos, Scale(f, k)) == start;
          assert k != 1;
          StepAhead(pos, f, k - 1);
        }
      }
    }
  }

  /** `WillIntersectPortal` as written. With `remaining` tiles left it steps `remaining` times,
      answering `true` on reaching the first path cell; then it scales the offset by `remaining`
      and applies it to the position the loop already moved, so it tests the cell `2 * remaining`
      steps away rather than the end cell `remaining` steps away. */
  function WillIntersectPortalAsWritten(tileCount: int, path: seq<Cell>, pos: Cell, d: Direction): (r: bool)
    requires |path| > 0 && d != None
    ensures tileCount - |path| > 0 && !Probe(path[0], pos, Facing(d), tileCount - |path|).0 ==>
      (r <==> Plus(pos, Scale(Facing(d), 2 * (tileCount - |path|))) in path)
  {
    var remaining := tileCount - |path|;
    var f := Facing(d);
    var (hit, at) := Probe(path[0], pos, f, remaining);
    ProbeEnds(path[0], pos, f, remaining);
    if hit then true
    else
      assert remaining > 0 ==>
        (Plus(Plus(pos, Scale(f, remaining)), Scale(f, remaining)) == Plus(pos, Scale(f, 2 * remaining)));
      Plus(at, Scale(f, remaining)) in path
  }

  /** The cell a straight run of the remaining tiles would end on. */
  function EndCell(tileCount: int, path: seq<Cell>, pos: Cell, d: Direction): Cell
    requires d != None
  {
    Plus(pos, Scale(Facing(d), Rects.Max(0, tileCount - |path|)))
  }

  /** The corrected `WillIntersectPortal`: a straight run of the remaining tiles in direction `d`
      would pass over the first path cell, where the portal stands, or end on the path. */
  function WillIntersectPortal(tileCount: int, path: seq<Cell>, pos: Cell, d: Direction): (r: bool)
    requires |path| > 0 && d != None
    ensures EndCell(tileCount, path, pos, d) in path ==> r
    ensures Probe(path[0], pos, Facing(d), tileCount - |path|).0 ==> r
    ensures r ==> Probe(path[0], pos, Facing(d), tileCount - |path|).0 || EndCell(tileCount, path, pos, d) in path
  {
    var (hit, at) := Probe(path[0], pos, Facing(d), tileCount - |path|);
    ProbeEnds(path[0], pos, Facing(d), tileCount - |path|);
    hit || at in path
  }

  /** The corrected check answers `true` exactly when a straight run of the remaining tiles would
      step onto the first path cell or end on the path. */
  lemma WillIntersectPortalMeaning(tileCount: int, path: seq<Cell>, pos: Cell, d: Direction)
    requires |path| > 0 && d != None
    ensures WillIntersectPortal(tileCount, path, pos, d) <==>
      (exists k :: 1 <= k <= tileCount - |path| && Plus(pos, Scale(Facing(d), k)) == path[0])
      || EndCell(tileCount, path, pos, d) in path
  {
    ProbeHits(path[0], pos, Facing(d), tileCount - |path|);
  }

  /** The version as written misses an end cell that lies on the path: with two tiles left, the
      run left from `(2, 1)` ends on `(0, 1)`, a path cell, but the cell checked is `(-2, 1)`. */
  lemma AsWrittenMissesEndCell()
    ensures var path := [Cell(0, 0), Cell(0, 1), Cell(0, 2), Cell(1, 2), Cell(2, 2), Cell(2, 1)];
      && EndCell(8, path, Cell(2, 1), Left) in path
      && WillIntersectPortal(8, path, Cell(2, 1), Left)
      && !WillIntersectPortalAsWritten(8, path, Cell(2, 1), Left)
  {
    var path := [Cell(0, 0), Cell(0, 1), Cell(0, 2), Cell(1, 2), Cell(2, 2), Cell(2, 1)];
    var f := Facing(Left);
    assert f == Offset(-1, 0);
    assert Probe(Cell(0, 0), Cell(2, 1), Offset(-1, 0), 2) == (false, Cell(0, 1));
    assert EndCell(8, path, Cell(2, 1), Left) == Cell(0, 1) == path[1];
    assert Plus(Cell(0, 1), Scale(f, 2)) == Cell(-2, 1);
  }

  // ---------------------------------------------------------------------------
  // The loop

  /** The settings the loop reads: the segment length range and how many corridor floor
      materials there are (a floor cell draws a material index when there is at least one). */
  datatype Settings = Settings(minSegmentLength: int, maxSegmentLength: int, floorMaterials: nat)

  /** The segment lengths are at least one, so every turn of the loop adds a cell. */
  predicate ValidSettings(s: Settings) {
    1 <= s.minSegmentLength <= s.maxSegmentLength
  }

  /** The stream after `AddFloorAtCell` has run for `n` cells. */
  function FloorDraws(rng: Rng, n: nat, s: Settings): (r: Rng)
    ensures r.source == rng.source
    ensures r.pos == if s.floorMaterials > 0 then rng.pos + n else rng.pos
  {
    if s.floorMaterials > 0 then Rng(rng.source, rng.pos + n) else rng
  }

  /** The turn after a run: try the drawn turn, else the other one, and keep straight on when
      both would run into the path. */
  function Turn(tileCount: int, path: seq<Cell>, pos: Cell, d: Direction, change: int): (r: Direction)
    requires |path| > 0 && d != None && (change == 1 || change == -1)
    ensures r != None
    ensures r != d ==> IsOrthogonal(d, r) && !WillIntersectPortal(tileCount, path, pos, r)
    ensures r == d <==> WillIntersectPortal(tileCount, path, pos, Rotate(d, Clockwise))
                        && WillIntersectPortal(tileCount, path, pos, Rotate(d, CounterClockwise))
    ensures !WillIntersectPortal(tileCount, path, pos, ChangeDirection(d, change)) ==> r == ChangeDirection(d, change)
  {
    var next := ChangeDirection(d, change);
    var next' := if WillIntersectPortal(tileCount, path, pos, next) then ChangeDirection(d, -change) else next;
    if !WillIntersectPortal(tileCount, path, pos, next') then next' else d
  }

  /** The loop state: the path so far, the current position and direction, and the stream. */
  datatype Corridor = Corridor(path: seq<Cell>, pos: Cell, dir: Direction, rng: Rng)

  /** Each path cell is one grid step from the one before. */
  predicate Contiguous(path: seq<Cell>) {
    forall i :: 0 < i < |path| ==> UnitStep(path[i - 1], path[i])
  }

  /** The loop state the loop keeps: a path ending at the current position, and a direction. */
  predicate Going(c: Corridor) {
    |c.path| > 0 && c.pos == c.path[|c.path| - 1] && c.dir != None
  }

  lemma ContiguousAppend(c: Corridor, run: seq<Cell>)
    requires Going(c) && Contiguous(c.path) && Straight(c.pos, c.dir, run)
    ensures Contiguous(c.path + run)
  {
    StraightIsChain(c.pos, c.dir, run);
    var p := c.path + run;
    forall i | 0 < i < |p| ensures UnitStep(p[i - 1], p[i]) {
      if i < |c.path| {
        assert p[i - 1] == c.path[i - 1] && p[i] == c.path[i];
      } else if i == |c.path| {
        assert p[i - 1] == c.pos && p[i] == run[0];
      } else {
        assert p[i - 1] == run[i - |c.path| - 1] && p[i] == run[i - |c.path|];
      }
    }
  }

  /** The `while` loop: while the path is shorter than `tileCount`, draw a segment length, clamp
      it to the tiles left, lay the run, then draw the turn. */
  function Extend(c: Corridor, tileCount: int, s: Settings): (r: Corridor)
    requires ValidSettings(s) && Going(c)
    ensures Going(r)
    ensures |r.path| == Rects.Max(|c.path|, tileCount)
    ensures r.path[..|c.path|] == c.path
    ensures Contiguous(c.path) ==> Contiguous(r.path)
    decreases tileCount - |c.path|
  {
    if |c.path| >= tileCount then c
    else
      var (drawn, rng1) := NextRange(c.rng, s.minSegmentLength, s.maxSegmentLength);
      var length := Rects.Min(drawn, tileCount - |c.path|);
      var run := Run(c.pos, c.dir, length);
      var (coin, rng2) := NextBelow(FloorDraws(rng1, length, s), 2);
      var path := c.path + run;
      var pos := run[length - 1];
      var dir := Turn(tileCount, path, pos, c.dir, coin * 2 - 1);
      assert Contiguous(c.path) ==> Contiguous(path) by {
        if Contiguous(c.path) {
          ContiguousAppend(c, run);
        }
      }
      var r := Extend(Corridor(path, pos, dir, rng2), tileCount, s);
      assert r.path[..|c.path|] == path[..|c.path|];
      r
  }

  /** `BuildDungeon` up to the end of the corridor loop: after `Reset`, the path is `Cell.Zero`
      (one floor cell) and the loop grows it. */
  function BuildCorridor(tileCount: int, s: Settings, rng: Rng): (r: Corridor)
    requires ValidSettings(s)
    ensures |r.path| == Rects.Max(1, tileCount)
    ensures r.path[0] == Zero
    ensures Contiguous(r.path)
    ensures r.dir != None && r.pos == r.path[|r.path| - 1]
  {
    Extend(Corridor([Zero], Zero, Forward, FloorDraws(rng, 1, s)), tileCount, s)
  }
}
