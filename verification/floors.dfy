/** The floor and wall bookkeeping of `DungeonBuilder`: every corridor cell becomes a floor entity
    in the `Floors` tracker, and the 3×3 block around it becomes a wall candidate; walls go on the
    candidates that are not floors. */
module Floors {
  import opened Grid
  import opened Trackers

  /** `CreateFromPool`: a cell without an entity gets the tracker's next pooled entity, or the
      newly instantiated `instance` when the pool is empty, shown at the cell; a cell with an
      entity keeps it. The new entry comes last in enumeration order. */
  function CreateFromPool(t: Tracker, c: Cell, instance: Entity): (r: Tracker)
    requires Valid(t)
    ensures Valid(r) && Contains(r, c)
    ensures Contains(t, c) ==> r == t
    ensures !Contains(t, c) ==> Keys(r.activeEntities) == Keys(t.activeEntities) + [c]
    ensures !Contains(t, c) ==> Count(r) == Count(t) + 1
  {
    if Contains(t, c) then t
    else
      var (e, t') := TryGetNext(t);
      assert Valid(t') && !Contains(t', c);
      AddToCell(t', c, e.GetOr(instance)).value
  }

  /** The keys after adding `cells` one by one to a dictionary whose keys are `ks`: each cell
      not yet present is appended. */
  function Appended(ks: seq<Cell>, cells: seq<Cell>): (r: seq<Cell>)
    ensures forall c :: c in r <==> c in ks || c in cells
    ensures Distinct(ks) ==> Distinct(r)
    decreases |cells|
  {
    if |cells| == 0 then ks
    else
      var ks' := if cells[0] in ks then ks else ks + [cells[0]];
      assert Distinct(ks) ==> Distinct(ks') by {
        if Distinct(ks) && cells[0] !in ks {
          DistinctConcat(ks, [cells[0]]);
        }
      }
      Appended(ks', cells[1..])
  }

  /** `AddCorridorFloorAtCell` for each cell in turn, on the `Floors` tracker; `nextId` numbers
      the instances created when the pool runs dry. */
  function AddFloors(t: Tracker, cells: seq<Cell>, nextId: nat): (r: Tracker)
    requires Valid(t)
    ensures Valid(r)
    ensures Keys(r.activeEntities) == Appended(Keys(t.activeEntities), cells)
    decreases |cells|
  {
    if |cells| == 0 then t
    else AddFloors(CreateFromPool(t, cells[0], Entity(nextId, false)), cells[1..], nextId + 1)
  }

  /** After `Reset` the floors are the path's cells, each once, in order of first visit: the
      enumeration order `BuildDungeon` reads the enemy candidates in. */
  lemma FloorsOfPath(t: Tracker, path: seq<Cell>, nextId: nat)
    requires Valid(t) && Count(t) == 0
    ensures var ks := Keys(AddFloors(t, path, nextId).activeEntities);
      Distinct(ks) && (forall c :: c in ks <==> c in path) && |ks| <= |path|
  {
    var ks := Keys(AddFloors(t, path, nextId).activeEntities);
    assert Keys(t.activeEntities) == [];
    AppendedLength([], path);
  }

  lemma {:induction false} AppendedLength(ks: seq<Cell>, cells: seq<Cell>)
    ensures |Appended(ks, cells)| <= |ks| + |cells|
    decreases |cells|
  {
    if |cells| > 0 {
      var ks' := if cells[0] in ks then ks else ks + [cells[0]];
      AppendedLength(ks', cells[1..]);
    }
  }

  // ---------------------------------------------------------------------------
  // Walls

  /** The two cells are equal or neighbours, diagonals included. */
  predicate Near(a: Cell, b: Cell) {
    -1 <= a.x - b.x <= 1 && -1 <= a.y - b.y <= 1
  }

  /** The block `AddFloorAtCell` adds to `wallCells`: `(x + i, y + j)` for `i, j` in `-1..1`. */
  function Around(c: Cell): (s: set<Cell>)
    ensures forall w :: w in s <==> Near(w, c)
  {
    {Cell(c.x - 1, c.y - 1), Cell(c.x - 1, c.y), Cell(c.x - 1, c.y + 1),
     Cell(c.x, c.y - 1), Cell(c.x, c.y), Cell(c.x, c.y + 1),
     Cell(c.x + 1, c.y - 1), Cell(c.x + 1, c.y), Cell(c.x + 1, c.y + 1)}
  }

  /** `wallCells` after a floor has been added at each of the cells. */
  function WallCells(cells: seq<Cell>): (s: set<Cell>)
    ensures forall w :: w in s <==> exists f :: f in cells && Near(w, f)
    decreases |cells|
  {
    if |cells| == 0 then {}
    else
      var rest := WallCells(cells[1..]);
      assert forall f :: f in cells <==> f == cells[0] || f in cells[1..];
      Around(cells[0]) + rest
  }

  /** The "Generate walls" loop: a wall on each candidate that is not a floor. The walls are
      exactly the cells next to a floor, diagonals included, that are not floors themselves. */
  function Walls(cells: seq<Cell>): (s: set<Cell>)
    ensures forall w :: w in s <==> w !in cells && exists f :: f in cells && Near(w, f)
  {
    set w | w in WallCells(cells) && w !in cells
  }

  /** A step from a floor in any direction lands on a floor or a wall: the walls close the
      corridor in. */
  lemma WallsEncloseFloors(cells: seq<Cell>, f: Cell, d: Direction)
    requires f in cells && d != None
    ensures Plus(f, Facing(d)) in cells || Plus(f, Facing(d)) in Walls(cells)
  {
    var n := Plus(f, Facing(d));
    assert Near(n, f);
    if n !in cells {
      assert n in WallCells(cells);
    }
  }
}
