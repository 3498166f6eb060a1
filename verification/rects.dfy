/** The rectangle geometry of `Region`: bounds, adjacency, intersection, splitting along a
    coordinate, the bounding box of an `AggregateRegion` and the nine pieces cut around a room.
    A region covers the cells `Left..Right` by `Back..Front`, both ends included. */
module Rects {
  import opened Grid
  import W = Wrappers

  datatype Rect = Rect(x: int, z: int, width: int, depth: int) {
    function Left(): int { x }
    function Right(): int { x + width - 1 }
    function Back(): int { z }
    function Front(): int { z + depth - 1 }
  }

  /** A region with at least one cell; the source asserts this of every region it keeps. */
  predicate Positive(r: Rect) {
    r.width > 0 && r.depth > 0
  }

  /** The cell lies inside the rectangle. */
  predicate Contains(r: Rect, c: Cell) {
    r.Left() <= c.x <= r.Right() && r.Back() <= c.y <= r.Front()
  }

  /** `b` lies inside `a`. */
  predicate Encloses(a: Rect, b: Rect) {
    a.Left() <= b.Left() && b.Right() <= a.Right() && a.Back() <= b.Back() && b.Front() <= a.Front()
  }

  predicate XOverlap(a: Rect, b: Rect) {
    a.Left() <= b.Right() && b.Left() <= a.Right()
  }

  predicate ZOverlap(a: Rect, b: Rect) {
    a.Back() <= b.Front() && b.Back() <= a.Front()
  }

  // ---------------------------------------------------------------------------
  // Adjacency

  /** `TryGetAdjacency(source, other)`: the side of `source` on which `other` borders it. When
      the x ranges overlap only the front and back sides are examined. */
  function TryGetAdjacency(s: Rect, o: Rect): Direction {
    if s.Left() <= o.Right() && s.Right() >= o.Left() then
      if s.Front() == o.Back() - 1 then Forward
      else if s.Back() == o.Front() + 1 then Backward
      else None
    else if s.Front() >= o.Back() && s.Back() <= o.Front() then
      if s.Left() == o.Right() + 1 then Left
      else if s.Right() == o.Left() - 1 then Right
      else None
    else None
  }

  /** Reference definition of adjacency: `o` lies directly beyond side `d` of `s` and the two
      share a stretch of that side. */
  predicate Touches(s: Rect, o: Rect, d: Direction) {
    match d
    case Forward => XOverlap(s, o) && s.Front() + 1 == o.Back()
    case Backward => XOverlap(s, o) && o.Front() + 1 == s.Back()
    case Left => ZOverlap(s, o) && o.Right() + 1 == s.Left()
    case Right => ZOverlap(s, o) && s.Right() + 1 == o.Left()
    case None => false
  }

  /** For regions with cells, `TryGetAdjacency` finds exactly the side on which the regions
      touch, and answers `None` exactly when they touch on no side. */
  lemma AdjacencyMeansTouching(s: Rect, o: Rect, d: Direction)
    requires Positive(s) && Positive(o)
    ensures d != None ==> (TryGetAdjacency(s, o) == d <==> Touches(s, o, d))
    ensures TryGetAdjacency(s, o) == None <==>
      !Touches(s, o, Forward) && !Touches(s, o, Backward) && !Touches(s, o, Left) && !Touches(s, o, Right)
  {
  }

  /** Adjacency is symmetric: seen from the other region it is the inverse direction. */
  lemma AdjacencySymmetric(s: Rect, o: Rect)
    requires Positive(s) && Positive(o)
    ensures TryGetAdjacency(o, s) == Inverse(TryGetAdjacency(s, o))
  {
  }

  /** Regions that border each other share no cell. */
  lemma AdjacentRegionsAreDisjoint(s: Rect, o: Rect, c: Cell)
    requires TryGetAdjacency(s, o) != None
    ensures !(Contains(s, c) && Contains(o, c))
  {
  }

  // ---------------------------------------------------------------------------
  // Intersection

  /** `RoomIntersectsRegion`: the closed bounds of the two rectangles overlap on both axes. */
  function Intersects(room: Rect, region: Rect): bool {
    room.Right() >= region.Left() && room.Left() <= region.Right()
      && room.Front() >= region.Back() && room.Back() <= region.Front()
  }

  /** For rectangles with cells, the intersection test holds exactly when some cell lies in both. */
  lemma IntersectsIffSharedCell(a: Rect, b: Rect)
    requires Positive(a) && Positive(b)
    ensures Intersects(a, b) <==> exists c :: Contains(a, c) && Contains(b, c)
  {
    if Intersects(a, b) {
      var c := Cell(if a.Left() < b.Left() then b.Left() else a.Left(),
                    if a.Back() < b.Back() then b.Back() else a.Back());
      assert Contains(a, c) && Contains(b, c);
    }
  }

  // ---------------------------------------------------------------------------
  // Splitting

  /** `ShouldSubdivideRegionAlongCoordinate`: a split along the direction's cross axis at
      `coordinate` leaves cells on both sides. */
  function ShouldSubdivide(r: Rect, dir: Direction, coordinate: int): bool {
    (IsVertical(dir) && coordinate > r.Left() && coordinate <= r.Right())
      || (!IsVertical(dir) && coordinate > r.Back() && coordinate <= r.Front())
  }

  /** The rectangles of `SubdivideRegion`: for a forward or backward direction the cut runs
      along x and `a` is the left part; otherwise the cut runs along z and `a` is the back part. */
  function SplitRect(r: Rect, dir: Direction, coordinate: int): (Rect, Rect) {
    var vertical := IsVertical(dir);
    var xPos := if vertical then coordinate else r.Left();
    var zPos := if vertical then r.Back() else coordinate;
    var xSizeA := if vertical then coordinate - r.Left() else r.width;
    var zSizeA := if vertical then r.depth else coordinate - r.Back();
    var xSizeB := if vertical then r.width - xSizeA else xSizeA;
    var zSizeB := if vertical then zSizeA else r.depth - zSizeA;
    (Rect(r.Left(), r.Back(), xSizeA, zSizeA), Rect(xPos, zPos, xSizeB, zSizeB))
  }

  /** The side of the first half on which the second half lies. */
  function SplitSide(dir: Direction): Direction {
    if IsVertical(dir) then Right else Forward
  }

  /** For a region with cells, the split is worth making exactly when both halves keep cells;
      the halves then border each other, lie inside the region and share out its cells. */
  lemma SplitRectLaws(r: Rect, dir: Direction, coordinate: int, c: Cell)
    requires Positive(r)
    ensures var (a, b) := SplitRect(r, dir, coordinate);
      ShouldSubdivide(r, dir, coordinate) <==> Positive(a) && Positive(b)
    ensures var (a, b) := SplitRect(r, dir, coordinate);
      ShouldSubdivide(r, dir, coordinate) ==>
        && TryGetAdjacency(a, b) == SplitSide(dir)
        && Encloses(r, a) && Encloses(r, b)
        && (Contains(r, c) <==> Contains(a, c) || Contains(b, c))
        && !(Contains(a, c) && Contains(b, c))
  {
  }

  // ---------------------------------------------------------------------------
  // Bounding boxes

  function Min(a: int, b: int): int { if a < b then a else b }
  function Max(a: int, b: int): int { if a < b then b else a }

  /** The smallest rectangle holding both rectangles. */
  function Union(a: Rect, b: Rect): (u: Rect)
    ensures u.Left() == Min(a.Left(), b.Left()) && u.Right() == Max(a.Right(), b.Right())
    ensures u.Back() == Min(a.Back(), b.Back()) && u.Front() == Max(a.Front(), b.Front())
  {
    var left := Min(a.Left(), b.Left());
    var back := Min(a.Back(), b.Back());
    Rect(left, back, Max(a.Right(), b.Right()) - left + 1, Max(a.Front(), b.Front()) - back + 1)
  }

  /** The bounds of an `AggregateRegion` holding `rs`; an empty aggregate has no extent. */
  function BoundingBox(rs: seq<Rect>): Rect
    decreases |rs|
  {
    if |rs| == 0 then Rect(0, 0, 0, 0)
    else if |rs| == 1 then rs[0]
    else Union(BoundingBox(rs[..|rs| - 1]), rs[|rs| - 1])
  }

  /** The bounding box holds every aggregated rectangle and is as tight as possible: each of
      its four sides is the side of some aggregated rectangle. */
  lemma {:induction false} BoundingBoxLaws(rs: seq<Rect>)
    requires |rs| > 0
    ensures forall i :: 0 <= i < |rs| ==> Encloses(BoundingBox(rs), rs[i])
    ensures exists i :: 0 <= i < |rs| && BoundingBox(rs).Left() == rs[i].Left()
    ensures exists i :: 0 <= i < |rs| && BoundingBox(rs).Right() == rs[i].Right()
    ensures exists i :: 0 <= i < |rs| && BoundingBox(rs).Back() == rs[i].Back()
    ensures exists i :: 0 <= i < |rs| && BoundingBox(rs).Front() == rs[i].Front()
    decreases |rs|
  {
    if |rs| == 1 {
      assert Encloses(rs[0], rs[0]);
    } else {
      var init := rs[..|rs| - 1];
      var last := |rs| - 1;
      BoundingBoxLaws(init);
      var box := BoundingBox(rs);
      assert box == Union(BoundingBox(init), rs[last]);
      forall i | 0 <= i < |rs|
        ensures Encloses(box, rs[i])
      {
        if i < last {
          assert rs[i] == init[i];
          assert Encloses(BoundingBox(init), init[i]);
        }
      }
      var l :| 0 <= l < |init| && BoundingBox(init).Left() == init[l].Left();
      if box.Left() == rs[last].Left() { } else { assert box.Left() == rs[l].Left(); }
      var r :| 0 <= r < |init| && BoundingBox(init).Right() == init[r].Right();
      if box.Right() == rs[last].Right() { } else { assert box.Right() == rs[r].Right(); }
      var b :| 0 <= b < |init| && BoundingBox(init).Back() == init[b].Back();
      if box.Back() == rs[last].Back() { } else { assert box.Back() == rs[b].Back(); }
      var f :| 0 <= f < |init| && BoundingBox(init).Front() == init[f].Front();
      if box.Front() == rs[last].Front() { } else { assert box.Front() == rs[f].Front(); }
    }
  }

  // ---------------------------------------------------------------------------
  // The nine pieces around a room

  /** The x cut points around `room` inside `box`: box left, room left, past the room, past the box. */
  function XCuts(box: Rect, room: Rect): seq<int> {
    [box.Left(), room.Left(), room.Right() + 1, box.Right() + 1]
  }

  function ZCuts(box: Rect, room: Rect): seq<int> {
    [box.Back(), room.Back(), room.Front() + 1, box.Front() + 1]
  }

  /** Piece `(i, j)` of the 3 by 3 cut, `i` counting along x and `j` along z. */
  function Piece(box: Rect, room: Rect, i: nat, j: nat): (p: Rect)
    requires i < 3 && j < 3
    ensures p.Left() == XCuts(box, room)[i] && p.Right() == XCuts(box, room)[i + 1] - 1
    ensures p.Back() == ZCuts(box, room)[j] && p.Front() == ZCuts(box, room)[j + 1] - 1
  {
    var xs := XCuts(box, room);
    var zs := ZCuts(box, room);
    Rect(xs[i], zs[j], xs[i + 1] - xs[i], zs[j + 1] - zs[j])
  }

  /** A value between the first and last of four ordered cut points falls between exactly one
      pair of consecutive cut points. */
  lemma {:induction false} ExactlyOneBand(cs: seq<int>, v: int, k: nat)
    requires |cs| == 4 && cs[0] <= cs[1] <= cs[2] <= cs[3]
    requires k < 3
    ensures cs[0] <= v < cs[3] ==> exists i :: 0 <= i < 3 && cs[i] <= v < cs[i + 1]
    ensures cs[k] <= v < cs[k + 1] ==> forall i :: 0 <= i < 3 && i != k ==> !(cs[i] <= v < cs[i + 1])
  {
    if cs[0] <= v < cs[3] {
      if v < cs[1] {
        assert cs[0] <= v < cs[1];
      } else if v < cs[2] {
        assert cs[1] <= v < cs[2];
      } else {
        assert cs[2] <= v < cs[3];
      }
    }
  }

  /** The pieces tile the box: the middle piece is the room, every cell of the box lies in
      exactly one piece, and no cell outside the box lies in any piece. */
  lemma PiecesTileBox(box: Rect, room: Rect, c: Cell)
    requires Positive(room) && Encloses(box, room)
    ensures Piece(box, room, 1, 1) == room
    ensures Contains(box, c) ==> exists i: nat, j: nat :: i < 3 && j < 3 && Contains(Piece(box, room, i, j), c)
    ensures forall i: nat, j: nat, i': nat, j': nat ::
      (i < 3 && j < 3 && i' < 3 && j' < 3 && Contains(Piece(box, room, i, j), c) && Contains(Piece(box, room, i', j'), c))
        ==> i == i' && j == j'
    ensures !Contains(box, c) ==> forall i: nat, j: nat :: i < 3 && j < 3 ==> !Contains(Piece(box, room, i, j), c)
  {
    var xs := XCuts(box, room);
    var zs := ZCuts(box, room);
    if Contains(box, c) {
      ExactlyOneBand(xs, c.x, 0);
      ExactlyOneBand(zs, c.y, 0);
      var i :| 0 <= i < 3 && xs[i] <= c.x < xs[i + 1];
      var j :| 0 <= j < 3 && zs[j] <= c.y < zs[j + 1];
      assert Contains(Piece(box, room, i, j), c);
    }
    forall i: nat, j: nat, i': nat, j': nat |
      i < 3 && j < 3 && i' < 3 && j' < 3 && Contains(Piece(box, room, i, j), c) && Contains(Piece(box, room, i', j'), c)
      ensures i == i' && j == j'
    {
      ExactlyOneBand(xs, c.x, i);
      ExactlyOneBand(zs, c.y, j);
    }
  }

  /** Neighbouring pieces that both have cells border each other: the next piece along z lies
      forward, the next along x lies to the right. */
  lemma NeighbouringPiecesAdjacent(box: Rect, room: Rect, i: nat, j: nat)
    requires Positive(room) && Encloses(box, room)
    requires i < 3 && j < 3
    ensures j < 2 && Positive(Piece(box, room, i, j)) && Positive(Piece(box, room, i, j + 1)) ==>
      TryGetAdjacency(Piece(box, room, i, j), Piece(box, room, i, j + 1)) == Forward
    ensures i < 2 && Positive(Piece(box, room, i, j)) && Positive(Piece(box, room, i + 1, j)) ==>
      TryGetAdjacency(Piece(box, room, i, j), Piece(box, room, i + 1, j)) == Right
  {
  }

  // ---------------------------------------------------------------------------
  // Successive splits

  predicate StrictlyIncreasing(s: seq<int>) {
    forall i, j :: 0 <= i < j < |s| ==> s[i] < s[j]
  }

  /** The strips a rectangle is cut into by splitting it at each coordinate of `cs` in turn and
      carrying on with the second half each time. */
  function Strips(r: Rect, dir: Direction, cs: seq<int>): (s: seq<Rect>)
    ensures |s| == |cs| + 1
    decreases |cs|
  {
    if |cs| == 0 then [r]
    else [SplitRect(r, dir, cs[0]).0] + Strips(SplitRect(r, dir, cs[0]).1, dir, cs[1..])
  }

  /** The strip `s` spans `r` across the cut direction. */
  predicate SpansAcross(r: Rect, dir: Direction, s: Rect) {
    if IsVertical(dir) then s.Back() == r.Back() && s.Front() == r.Front()
    else s.Left() == r.Left() && s.Right() == r.Right()
  }

  /** Cutting at increasing coordinates inside `r` yields non-empty strips inside `r`, each
      spanning it across the cut, the first starting at `r`'s corner and each bordering the
      next on the split side. */
  lemma {:induction false} StripsLaws(r: Rect, dir: Direction, cs: seq<int>)
    requires Positive(r) && StrictlyIncreasing(cs)
    requires forall i :: 0 <= i < |cs| ==> ShouldSubdivide(r, dir, cs[i])
    ensures Strips(r, dir, cs)[0].Left() == r.Left() && Strips(r, dir, cs)[0].Back() == r.Back()
    ensures forall i :: 0 <= i <= |cs| ==>
      Positive(Strips(r, dir, cs)[i]) && Encloses(r, Strips(r, dir, cs)[i]) && SpansAcross(r, dir, Strips(r, dir, cs)[i])
    ensures forall i :: 0 <= i < |cs| ==>
      TryGetAdjacency(Strips(r, dir, cs)[i], Strips(r, dir, cs)[i + 1]) == SplitSide(dir)
    decreases |cs|
  {
    if |cs| > 0 {
      var (a, b) := SplitRect(r, dir, cs[0]);
      SplitRectLaws(r, dir, cs[0], Cell(0, 0));
      var rest := cs[1..];
      assert forall i :: 0 <= i < |rest| ==> rest[i] == cs[i + 1] && cs[0] < cs[i + 1];
      StripsLaws(b, dir, rest);
      var tail := Strips(b, dir, rest);
      assert Strips(r, dir, cs) == [a] + tail;
      assert TryGetAdjacency(a, tail[0]) == SplitSide(dir);
    }
  }

  /** The coordinate `FindCoordinatesToSubdivideAlong` records for a region `adj` that `r`
      lists in `dir`: the near edge of `adj` when it starts strictly inside `r`, otherwise one
      past its far edge when that ends strictly inside `r`, otherwise none. */
  function CutFor(r: Rect, dir: Direction, adj: Rect): W.Option<int> {
    if IsVertical(dir) then
      if r.Left() < adj.Left() <= r.Right() then W.Some(adj.Left())
      else if r.Left() <= adj.Right() < r.Right() then W.Some(adj.Right() + 1)
      else W.None
    else
      if r.Back() < adj.Back() <= r.Front() then W.Some(adj.Back())
      else if r.Back() <= adj.Front() < r.Front() then W.Some(adj.Front() + 1)
      else W.None
  }

  /** A recorded coordinate always cuts `r` into two non-empty parts, and it is one of the
      two edges of `adj` across the direction. */
  lemma CutForInside(r: Rect, dir: Direction, adj: Rect)
    ensures CutFor(r, dir, adj).Some? ==> ShouldSubdivide(r, dir, CutFor(r, dir, adj).value)
    ensures CutFor(r, dir, adj).Some? ==>
      var c := CutFor(r, dir, adj).value;
      if IsVertical(dir) then c == adj.Left() || c == adj.Right() + 1 else c == adj.Back() || c == adj.Front() + 1
    ensures CutFor(r, dir, adj).None? && IsVertical(dir) ==>
      !(r.Left() < adj.Left() <= r.Right()) && !(r.Left() < adj.Right() + 1 <= r.Right())
    ensures CutFor(r, dir, adj).None? && !IsVertical(dir) ==>
      !(r.Back() < adj.Back() <= r.Front()) && !(r.Back() < adj.Front() + 1 <= r.Front())
  {
  }

  /** The coordinate `SubdivideRegionToMatchAdjacentRegionsInDirection` cuts at between two
      consecutive regions `a` and `b` across the direction `dir`. */
  function MatchCoordinate(a: Rect, b: Rect, dir: Direction): int {
    if IsVertical(dir) then (if a.Left() == b.Right() + 1 then a.Left() else a.Right() + 1)
    else (if a.Back() == b.Front() + 1 then a.Back() else a.Front() + 1)
  }

  /** For side-by-side regions the coordinate is the line between them, so the assertion in
      the source that it is an edge of `b` holds. */
  lemma MatchCoordinateSeparates(a: Rect, b: Rect, dir: Direction)
    requires Positive(a) && Positive(b)
    requires IsVertical(dir) ==> TryGetAdjacency(a, b) in {Left, Right}
    requires !IsVertical(dir) ==> TryGetAdjacency(a, b) in {Forward, Backward}
    ensures IsVertical(dir) ==>
      || (a.Right() + 1 == MatchCoordinate(a, b, dir) == b.Left())
      || (b.Right() + 1 == MatchCoordinate(a, b, dir) == a.Left())
    ensures !IsVertical(dir) ==>
      || (a.Front() + 1 == MatchCoordinate(a, b, dir) == b.Back())
      || (b.Front() + 1 == MatchCoordinate(a, b, dir) == a.Back())
  {
    AdjacencyMeansTouching(a, b, TryGetAdjacency(a, b));
  }
}

