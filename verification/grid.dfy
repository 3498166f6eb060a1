/** Grid primitives: `Cell`, `CoordinateOffset`, `Direction` and the `facings` table. */
module Grid {
  import Int32

  /** A grid coordinate. `y` is the depth axis (the world z axis). */
  datatype Cell = Cell(x: int, y: int)

  /** A grid vector between two cells. */
  datatype Offset = Offset(x: int, y: int)

  datatype Direction = Forward | Right | Backward | Left | None

  datatype Rotation = Clockwise | CounterClockwise

  // ---------------------------------------------------------------------------
  // Cell

  /** `Cell.Zero`. */
  const Zero: Cell := Cell(0, 0)

  /** The `Cell(x, y)` constructor and `Cell.Create`: the coordinates are stored unchanged. */
  function Create(x: int, y: int): (c: Cell)
    ensures c.x == x && c.y == y
  {
    Cell(x, y)
  }

  /** `Cell.Equals(Cell)`: compares exactly the two coordinates. */
  function CellEquals(a: Cell, b: Cell): (r: bool)
    ensures r <==> a == b
  {
    a.x == b.x && a.y == b.y
  }

  /** `operator ==` on cells, which delegates to `Equals`. */
  function CellEq(a: Cell, b: Cell): bool {
    CellEquals(a, b)
  }

  /** `operator !=` on cells. */
  function CellNe(a: Cell, b: Cell): bool {
    !CellEq(a, b)
  }

  /** `Cell.GetHashCode`: `(x << 16) + y` with 32-bit wrap-around. */
  function CellHash(c: Cell): (h: int)
    ensures Int32.InRange(h)
  {
    Int32.Wrap(Int32.ShiftLeft16(c.x) + c.y)
  }

  /** Equals is an equivalence, `==` agrees with it and `!=` is its negation. */
  lemma CellEqualityLaws(a: Cell, b: Cell)
    ensures CellEquals(a, a)
    ensures CellEquals(a, b) == CellEquals(b, a)
    ensures CellEq(a, b) == CellEquals(a, b)
    ensures CellNe(a, b) == !CellEquals(a, b)
  {
  }

  /** Cells whose x fits in 16 signed bits and whose y fits in 16 unsigned bits are
      packed by the hash without loss: there the hash tells cells apart. */
  lemma CellHashInjectiveOnPackedRange(a: Cell, b: Cell)
    requires -0x8000 <= a.x < 0x8000 && 0 <= a.y < 0x1_0000
    requires -0x8000 <= b.x < 0x8000 && 0 <= b.y < 0x1_0000
    ensures CellHash(a) == CellHash(b) <==> a == b
  {
    assert CellHash(a) == a.x * 0x1_0000 + a.y;
    assert CellHash(b) == b.x * 0x1_0000 + b.y;
    if a.x < b.x {
      assert a.x * 0x1_0000 + a.y < b.x * 0x1_0000 + b.y;
    } else if a.x > b.x {
      assert a.x * 0x1_0000 + a.y > b.x * 0x1_0000 + b.y;
    }
  }

  // ---------------------------------------------------------------------------
  // CoordinateOffset

  /** `CoordinateOffset.Create`. */
  function MakeOffset(x: int, y: int): (o: Offset)
    ensures o.x == x && o.y == y
  {
    Offset(x, y)
  }

  /** `ApplyTo(ref cell)` and `operator +(Cell, CoordinateOffset)`: the cell moved by the offset. */
  function Plus(c: Cell, o: Offset): Cell {
    Cell(c.x + o.x, c.y + o.y)
  }

  /** `operator -(CoordinateOffset)`. */
  function Neg(o: Offset): Offset {
    Offset(-o.x, -o.y)
  }

  /** `operator -(Cell, CoordinateOffset)`: applies the negated offset. */
  function Minus(c: Cell, o: Offset): Cell {
    Plus(c, Neg(o))
  }

  /** `CoordinateOffset.Distance(from, to)`: the offset that moves `from` onto `to`. */
  function Distance(from: Cell, to: Cell): (o: Offset)
    ensures Plus(from, o) == to
  {
    Offset(to.x - from.x, to.y - from.y)
  }

  /** `operator +(CoordinateOffset, CoordinateOffset)`. */
  function AddOffsets(a: Offset, b: Offset): (r: Offset)
    ensures Plus(Plus(Zero, a), b) == Plus(Zero, r)
  {
    Offset(a.x + b.x, a.y + b.y)
  }

  /** `operator -(CoordinateOffset, CoordinateOffset)`. */
  function SubOffsets(a: Offset, b: Offset): (r: Offset)
    ensures AddOffsets(r, b) == a
  {
    Offset(a.x - b.x, a.y - b.y)
  }

  /** `operator *(CoordinateOffset, int)`. */
  function Scale(o: Offset, k: int): Offset {
    Offset(o.x * k, o.y * k)
  }

  /** `CoordinateOffset.Equals` and `operator ==`: compares exactly the two components. */
  function OffsetEq(a: Offset, b: Offset): (r: bool)
    ensures r <==> a == b
  {
    CellEquals(Cell(a.x, a.y), Cell(b.x, b.y))
  }

  /** `operator !=` on offsets. */
  function OffsetNe(a: Offset, b: Offset): bool {
    !OffsetEq(a, b)
  }

  /** The 32-bit sort key `(x << 16) + y` that `CompareTo` subtracts. */
  function OffsetKey(o: Offset): int {
    Int32.Wrap(Int32.ShiftLeft16(o.x) + o.y)
  }

  /** `CoordinateOffset.CompareTo`: the wrapped difference of the two sort keys. */
  function CompareTo(a: Offset, b: Offset): (r: int)
    ensures Int32.InRange(r)
    ensures a == b ==> r == 0
  {
    Int32.Wrap(OffsetKey(a) - OffsetKey(b))
  }

  /** `Magnitude`: the city-block length `|x| + |y|`. The property is not part of the
      `CoordinateOffset` source in this model; the comparison operators below use it. */
  function Magnitude(o: Offset): nat {
    (if o.x < 0 then -o.x else o.x) + (if o.y < 0 then -o.y else o.y)
  }

  /** `operator <` on offsets, taken as comparing magnitudes. */
  function OffsetLess(a: Offset, b: Offset): bool {
    Magnitude(a) < Magnitude(b)
  }

  /** `operator >` on offsets, taken as comparing magnitudes. */
  function OffsetGreater(a: Offset, b: Offset): bool {
    Magnitude(a) > Magnitude(b)
  }

  /** The cell and offset algebra: a cell plus the distance to another reaches it, adding and
      then subtracting an offset is the identity, negation is an involution and cancels. */
  lemma OffsetAlgebra(a: Cell, b: Cell, c: Cell, o: Offset)
    ensures Plus(a, Distance(a, b)) == b
    ensures Distance(a, b) == Offset(b.x - a.x, b.y - a.y)
    ensures Minus(Plus(c, o), o) == c
    ensures Neg(Neg(o)) == o
    ensures AddOffsets(o, Neg(o)) == Offset(0, 0)
    ensures Scale(o, 1) == o
    ensures Scale(o, 0) == Offset(0, 0)
    ensures OffsetNe(o, o) == false
  {
  }

  /** `CompareTo` is antisymmetric as long as the subtraction of the two sort keys does not
      overflow; on the packed range it is zero exactly for equal offsets. */
  lemma CompareToAntisymmetric(a: Offset, b: Offset)
    requires Int32.InRange(OffsetKey(a) - OffsetKey(b))
    requires Int32.InRange(OffsetKey(b) - OffsetKey(a))
    ensures CompareTo(a, b) == -CompareTo(b, a)
    ensures CompareTo(a, a) == 0
  {
  }

  lemma CompareToZeroOnPackedRange(a: Offset, b: Offset)
    requires -0x4000 <= a.x < 0x4000 && 0 <= a.y < 0x1_0000
    requires -0x4000 <= b.x < 0x4000 && 0 <= b.y < 0x1_0000
    ensures CompareTo(a, b) == 0 <==> a == b
  {
    assert OffsetKey(a) == a.x * 0x1_0000 + a.y;
    assert OffsetKey(b) == b.x * 0x1_0000 + b.y;
    assert CompareTo(a, b) == OffsetKey(a) - OffsetKey(b);
    if a.x < b.x {
      assert a.x * 0x1_0000 + a.y < b.x * 0x1_0000 + b.y;
    } else if a.x > b.x {
      assert a.x * 0x1_0000 + a.y > b.x * 0x1_0000 + b.y;
    }
  }

  // ---------------------------------------------------------------------------
  // Direction

  /** The enum ordinal of a direction. */
  function Ordinal(d: Direction): nat {
    match d
    case Forward => 0
    case Right => 1
    case Backward => 2
    case Left => 3
    case None => 4
  }

  /** The cast `(Direction)n`. */
  function FromOrdinal(n: nat): (d: Direction)
    requires n < 5
    ensures Ordinal(d) == n
  {
    if n == 0 then Forward
    else if n == 1 then Right
    else if n == 2 then Backward
    else if n == 3 then Left
    else None
  }

  lemma OrdinalRoundTrip(d: Direction)
    ensures FromOrdinal(Ordinal(d)) == d
  {
  }

  predicate IsCardinal(d: Direction) {
    d != None
  }

  predicate IsVertical(d: Direction) {
    d == Forward || d == Backward
  }

  /** The `facings` table: the unit step of each of the four directions. */
  function Facing(d: Direction): (o: Offset)
    requires d != None
    ensures Magnitude(o) == 1
  {
    match d
    case Forward => Offset(0, 1)
    case Right => Offset(1, 0)
    case Backward => Offset(0, -1)
    case Left => Offset(-1, 0)
  }

  /** `Defs.ForEachDirection`: the four directions in enum order. */
  function ForEachDirection(): (ds: seq<Direction>)
    ensures |ds| == 4
    ensures forall i :: 0 <= i < 4 ==> Ordinal(ds[i]) == i
  {
    [Forward, Right, Backward, Left]
  }

  /** `Defs.InverseDirection`: the opposite direction; its facing is the negated facing. */
  function Inverse(d: Direction): (r: Direction)
    ensures r == None <==> d == None
    ensures d != None ==> r != d
  {
    match d
    case Forward => Backward
    case Right => Left
    case Backward => Forward
    case Left => Right
    case None => None
  }

  /** `Defs.RotateDirection`: a quarter turn, clockwise being +1 in enum order. */
  function Rotate(d: Direction, rot: Rotation): (r: Direction)
    ensures d != None ==> r != None && r != d && r != Inverse(d)
    ensures d == None ==> r == None
  {
    match d
    case Forward => if rot == Clockwise then Right else Left
    case Right => if rot == Clockwise then Backward else Forward
    case Backward => if rot == Clockwise then Left else Right
    case Left => if rot == Clockwise then Forward else Backward
    case None => None
  }

  /** Rotation and inversion agree with modular arithmetic on the enum ordinals:
      clockwise adds one, counter-clockwise adds three, inversion adds two, modulo four. */
  lemma RotationIsModular(d: Direction)
    requires d != None
    ensures Ordinal(Rotate(d, Clockwise)) == (Ordinal(d) + 1) % 4
    ensures Ordinal(Rotate(d, CounterClockwise)) == (Ordinal(d) + 3) % 4
    ensures Ordinal(Inverse(d)) == (Ordinal(d) + 2) % 4
  {
  }

  /** `Defs.IsOrthogonal`: the two directions are a quarter turn apart. */
  function IsOrthogonal(a: Direction, b: Direction): (r: bool)
    ensures r <==> a != None && (b == Rotate(a, Clockwise) || b == Rotate(a, CounterClockwise))
  {
    match a
    case Forward => b == Right || b == Left
    case Backward => b == Right || b == Left
    case Right => b == Forward || b == Backward
    case Left => b == Forward || b == Backward
    case None => false
  }

  /** `Defs.GetOffsetDirection`: the direction whose facing equals the offset, searched in table
      order, or `None` when no facing matches. */
  function GetOffsetDirection(o: Offset): (d: Direction)
    ensures d != None ==> Facing(d) == o
    ensures d == None ==> forall e :: e != None ==> Facing(e) != o
  {
    if o == Facing(Forward) then Forward
    else if o == Facing(Right) then Right
    else if o == Facing(Backward) then Backward
    else if o == Facing(Left) then Left
    else None
  }

  /** The facings are four distinct unit steps, and opposite directions have negated facings. */
  lemma FacingLaws(a: Direction, b: Direction)
    requires a != None && b != None
    ensures Facing(a) == Facing(b) ==> a == b
    ensures Facing(Inverse(a)) == Neg(Facing(a))
    ensures GetOffsetDirection(Facing(a)) == a
  {
  }

  /** `GetOffsetDirection` answers `None` for every offset that is not a unit step. */
  lemma NonUnitOffsetHasNoDirection(o: Offset)
    requires Magnitude(o) != 1
    ensures GetOffsetDirection(o) == None
  {
  }

  /** Rotating back undoes a rotation, and two quarter turns make the inverse. */
  lemma RotationLaws(d: Direction)
    requires d != None
    ensures Rotate(Rotate(d, Clockwise), CounterClockwise) == d
    ensures Rotate(Rotate(d, CounterClockwise), Clockwise) == d
    ensures Rotate(Rotate(d, Clockwise), Clockwise) == Inverse(d)
    ensures Inverse(Inverse(d)) == d
  {
    match d
    case Forward =>
      assert Rotate(Forward, Clockwise) == Right;
      assert Rotate(Forward, CounterClockwise) == Left;
    case Right =>
      assert Rotate(Right, Clockwise) == Backward;
      assert Rotate(Right, CounterClockwise) == Forward;
    case Backward =>
      assert Rotate(Backward, Clockwise) == Left;
      assert Rotate(Backward, CounterClockwise) == Right;
    case Left =>
      assert Rotate(Left, Clockwise) == Forward;
      assert Rotate(Left, CounterClockwise) == Backward;
  }

  /** A step in a direction followed by a step in its inverse returns to the start. */
  lemma StepBack(c: Cell, d: Direction)
    requires d != None
    ensures Plus(Plus(c, Facing(d)), Facing(Inverse(d))) == c
  {
  }

  /** Two cells are one grid step apart. */
  predicate UnitStep(a: Cell, b: Cell) {
    Magnitude(Distance(a, b)) == 1
  }

  /** `path` is contiguous starting one step away from `start`. */
  predicate ChainFrom(start: Cell, path: seq<Cell>) {
    && (|path| > 0 ==> UnitStep(start, path[0]))
    && (forall i :: 0 < i < |path| ==> UnitStep(path[i - 1], path[i]))
  }

  /** The last cell of a chain, or its start when it is empty. */
  function ChainEnd(start: Cell, path: seq<Cell>): Cell {
    if |path| == 0 then start else path[|path| - 1]
  }

  lemma ChainFromAppend(start: Cell, p: seq<Cell>, q: seq<Cell>)
    requires ChainFrom(start, p)
    requires ChainFrom(ChainEnd(start, p), q)
    ensures ChainFrom(start, p + q)
    ensures ChainEnd(start, p + q) == ChainEnd(ChainEnd(start, p), q)
  {
    var r := p + q;
    forall i | 0 < i < |r|
      ensures UnitStep(r[i - 1], r[i])
    {
      if i < |p| {
        assert r[i - 1] == p[i - 1] && r[i] == p[i];
      } else if i == |p| {
        assert r[i - 1] == p[|p| - 1] && r[i] == q[0];
      } else {
        assert r[i - 1] == q[i - |p| - 1] && r[i] == q[i - |p|];
      }
    }
    if |p| == 0 {
      assert r == q;
    }
  }

  lemma StepIsUnit(c: Cell, d: Direction)
    requires d != None
    ensures UnitStep(c, Plus(c, Facing(d)))
  {
  }

  /** A subset is no larger than the set containing it. */
  lemma SubsetSize<T>(a: set<T>, b: set<T>)
    requires a <= b
    ensures |a| <= |b|
  {
    assert b == a + (b - a);
  }

  // ---------------------------------------------------------------------------
  // Lists of cells

  /** No element of the list appears twice. */
  predicate Distinct(s: seq<Cell>) {
    forall i, j :: 0 <= i < j < |s| ==> s[i] != s[j]
  }

  lemma DistinctConcat(a: seq<Cell>, b: seq<Cell>)
    requires Distinct(a) && Distinct(b) && forall c :: c in a ==> c !in b
    ensures Distinct(a + b)
  {
    var s := a + b;
    forall i, j | 0 <= i < j < |s| ensures s[i] != s[j] {
      if j < |a| {
        assert s[i] == a[i] && s[j] == a[j];
      } else if i >= |a| {
        assert s[i] == b[i - |a|] && s[j] == b[j - |a|];
      } else {
        assert s[i] in a && s[j] in b;
      }
    }
  }

  /** A list without repeats has as many distinct cells as entries. */
  lemma {:induction false} DistinctSetSize(s: seq<Cell>)
    requires Distinct(s)
    ensures |set c | c in s| == |s|
  {
    if |s| > 0 {
      DistinctSetSize(s[1..]);
      assert (set c | c in s) == {s[0]} + (set c | c in s[1..]);
      assert s[0] !in s[1..];
    }
  }

  lemma {:induction false} SetSizeAtMost(s: seq<Cell>)
    ensures |set c | c in s| <= |s|
  {
    if |s| > 0 {
      SetSizeAtMost(s[1..]);
      assert (set c | c in s) == {s[0]} + (set c | c in s[1..]);
    }
  }
}
