/** A placed `Room` as the path builder sees it: its rectangle, its position in `allRooms`, its
    `Doorways`, its floor cells and the ring of wall cells `BuildLevel` places around it.
    The floor of a room is `Left..Right-1` by `Back..Front-1`; the wall ring runs one cell
    outside the floor on every side, so it takes the room's last column and last row. */
module Rooms {
  import opened Grid
  import opened Rects

  /** One entry of `Room.Doorways`: the doorway cell and the index of the room it leads to. */
  datatype Doorway = Doorway(cell: Cell, to: nat)

  datatype Room = Room(rect: Rect, index: int, doorways: seq<Doorway>)

  /** `PathBuilder.IsValidCellForRoom`: the cell is a floor cell of the room. */
  predicate IsValidCell(c: Cell, r: Rect) {
    r.Left() <= c.x < r.Right() && r.Back() <= c.y < r.Front()
  }

  /** The number of floor columns and rows. */
  function FloorWidth(r: Rect): nat {
    if r.width > 1 then r.width - 1 else 0
  }

  function FloorDepth(r: Rect): nat {
    if r.depth > 1 then r.depth - 1 else 0
  }

  /** Row `y` of the floor, from the left. */
  function Row(r: Rect, y: int): (cs: seq<Cell>)
    ensures |cs| == FloorWidth(r)
    ensures forall c :: c in cs <==> c.y == y && r.Left() <= c.x < r.Right()
  {
    var cs := seq(FloorWidth(r), i requires 0 <= i < FloorWidth(r) => Cell(r.Left() + i, y));
    assert forall c: Cell | c.y == y && r.Left() <= c.x < r.Right() :: cs[c.x - r.Left()] == c;
    cs
  }

  /** The floor rows from row `j` (counted from the back) onwards. */
  function RowsFrom(r: Rect, j: nat): seq<Cell>
    decreases FloorDepth(r) - j
  {
    if j >= FloorDepth(r) then [] else Row(r, r.Back() + j) + RowsFrom(r, j + 1)
  }

  /** `Room.Cells`: the floor cells, row after row from the back, each row from the left. */
  function Cells(r: Rect): seq<Cell> {
    RowsFrom(r, 0)
  }

  lemma {:induction false} RowsFromAreFloor(r: Rect, j: nat, c: Cell)
    ensures c in RowsFrom(r, j) <==> IsValidCell(c, r) && c.y >= r.Back() + j
    decreases FloorDepth(r) - j
  {
    if j < FloorDepth(r) {
      RowsFromAreFloor(r, j + 1, c);
    }
  }

  /** `Cells` lists exactly the valid cells of the room. */
  lemma CellsAreFloor(r: Rect, c: Cell)
    ensures c in Cells(r) <==> IsValidCell(c, r)
  {
    RowsFromAreFloor(r, 0, c);
  }

  lemma {:induction false} RowsFromDistinct(r: Rect, j: nat)
    ensures Distinct(RowsFrom(r, j))
    decreases FloorDepth(r) - j
  {
    if j < FloorDepth(r) {
      var row := Row(r, r.Back() + j);
      assert Distinct(row) by {
        forall a, b | 0 <= a < b < |row| ensures row[a] != row[b] {
          assert row[a].x == r.Left() + a && row[b].x == r.Left() + b;
        }
      }
      RowsFromDistinct(r, j + 1);
      forall c | c in row ensures c !in RowsFrom(r, j + 1) {
        RowsFromAreFloor(r, j + 1, c);
      }
      DistinctConcat(row, RowsFrom(r, j + 1));
    }
  }

  /** `Cells` lists each floor cell once. */
  lemma CellsDistinct(r: Rect)
    ensures Distinct(Cells(r))
  {
    RowsFromDistinct(r, 0);
  }

  // ---------------------------------------------------------------------------
  // The wall ring

  /** The cell of the wall loop at `(i, j)` when it lies on the ring. */
  predicate RingStep(r: Rect, i: int, j: int) {
    i == 0 || j == 0 || i == r.width || j == r.depth
  }

  /** The inner wall loop for column `i`, from `j` to `Depth`. */
  function RingColumn(r: Rect, i: int, j: int): set<Cell>
    decreases r.depth - j + 1
  {
    if j > r.depth then {}
    else (if RingStep(r, i, j) then {Cell(r.Left() + i - 1, r.Back() + j - 1)} else {}) + RingColumn(r, i, j + 1)
  }

  /** The outer wall loop, from column `i` to `Width`. */
  function RingColumns(r: Rect, i: int): set<Cell>
    decreases r.width - i + 1
  {
    if i > r.width then {} else RingColumn(r, i, 0) + RingColumns(r, i + 1)
  }

  /** The cells `BuildLevel` visits for a room's walls: `(Left + i - 1, Back + j - 1)` for
      `0 <= i <= Width` and `0 <= j <= Depth` with `i` or `j` at an end of its range. */
  function Ring(r: Rect): set<Cell> {
    RingColumns(r, 0)
  }

  /** Reference definition of the ring: the border of the box `Left-1..Right` by `Back-1..Front`. */
  predicate OnRing(r: Rect, c: Cell) {
    && r.Left() - 1 <= c.x <= r.Right() && r.Back() - 1 <= c.y <= r.Front()
    && (c.x == r.Left() - 1 || c.x == r.Right() || c.y == r.Back() - 1 || c.y == r.Front())
  }

  lemma {:induction false} RingColumnHas(r: Rect, i: int, j: int, c: Cell)
    ensures c in RingColumn(r, i, j) <==>
      c.x == r.Left() + i - 1 && j <= c.y - r.Back() + 1 <= r.depth && RingStep(r, i, c.y - r.Back() + 1)
    decreases r.depth - j + 1
  {
    if j <= r.depth {
      RingColumnHas(r, i, j + 1, c);
    }
  }

  lemma {:induction false} RingColumnsHas(r: Rect, i: int, c: Cell)
    ensures c in RingColumns(r, i) <==>
      i <= c.x - r.Left() + 1 <= r.width && 0 <= c.y - r.Back() + 1 <= r.depth
      && RingStep(r, c.x - r.Left() + 1, c.y - r.Back() + 1)
    decreases r.width - i + 1
  {
    if i <= r.width {
      RingColumnHas(r, i, 0, c);
      RingColumnsHas(r, i + 1, c);
    }
  }

  /** The wall loop visits exactly the border of the box one cell outside the floor. */
  lemma RingIsBorder(r: Rect, c: Cell)
    ensures c in Ring(r) <==> OnRing(r, c)
  {
    RingColumnsHas(r, 0, c);
  }

  /** The ring and the floor share no cell, and every step out of the floor lands on the floor
      or on the ring: the walls close the room in. */
  lemma RingEnclosesFloor(r: Rect, c: Cell, d: Direction)
    requires IsValidCell(c, r) && d != None
    ensures !OnRing(r, c)
    ensures IsValidCell(Plus(c, Facing(d)), r) || OnRing(r, Plus(c, Facing(d)))
  {
  }
}
