/** `SubdivideRegionsAroundRoom` and `TryAddRoomToRegion`: a room is cut out of the regions it
    intersects, the rest of their bounding box becomes up to eight new regions around it, the new
    regions are connected to each other and stitched into the old neighbours, and the outer ones
    are merged and subdivided to line up with what lies beyond them. */
module Placement {
  import opened Grid
  import opened Rects
  import opened RegionGraph
  import opened Search
  import opened Subdivision
  import opened Merging
  import opened Random
  import W = Wrappers

  // ---------------------------------------------------------------------------
  // The 3 by 3 grid of pieces

  /** Position `k` of `newRegionsFixed` is piece `(k / 3, k % 3)`: `i` counts along x, `j` along z. */
  function Col(k: nat): nat { k / 3 }
  function Row(k: nat): nat { k % 3 }

  /** Slot `q` of the pieces grid holds `o` as `SubdivideRegionsAroundRoom` fills it: the room
      in the middle, elsewhere a region created at or after id `base`, ordinary and over the
      piece, exactly when the piece has cells. */
  predicate SlotOk(g: Graph, base: nat, box: Rect, roomRect: Rect, room: RegionId, q: nat, o: W.Option<RegionId>)
    requires q < 9
  {
    if q == 4 then o == W.Some(room)
    else
      var rect := Piece(box, roomRect, Col(q), Row(q));
      && (o.Some? <==> Positive(rect))
      && (o.Some? ==> o.value in g.store && o.value >= base && !IsRoom(g, o.value) && Rectangle(g, o.value) == rect)
  }

  predicate PieceOk(g: Graph, base: nat, box: Rect, roomRect: Rect, room: RegionId, pieces: seq<W.Option<RegionId>>, q: nat)
    requires q < |pieces| && q < 9
  {
    SlotOk(g, base, box, roomRect, room, q, pieces[q])
  }

  /** Different slots hold different regions. */
  predicate DistinctSlots(pieces: seq<W.Option<RegionId>>) {
    forall q, q' :: 0 <= q < q' < |pieces| && pieces[q].Some? && pieces[q'].Some? ==> pieces[q].value != pieces[q'].value
  }

  /** Every filled slot is as `PieceOk` says, no two slots share a region, and every region is
      older than `g.nextId`. */
  predicate SlotsOk(g: Graph, base: nat, box: Rect, roomRect: Rect, room: RegionId, pieces: seq<W.Option<RegionId>>) {
    && |pieces| <= 9 && DistinctSlots(pieces)
    && (forall q :: 0 <= q < |pieces| ==> PieceOk(g, base, box, roomRect, room, pieces, q))
    && (forall q :: 0 <= q < |pieces| && pieces[q].Some? ==> pieces[q].value < g.nextId)
  }

  /** Filling the next slot keeps the slots in order, when the new region is at least as new as
      every region before it and is its own slot's region. */
  lemma SlotsOkSnoc(g: Graph, g': Graph, base: nat, box: Rect, roomRect: Rect, room: RegionId,
                    pieces: seq<W.Option<RegionId>>, o: W.Option<RegionId>)
    requires SlotsOk(g, base, box, roomRect, room, pieces) && |pieces| < 9 && Evolves(g, g')
    requires room < base <= g.nextId
    requires o.Some? ==> o.value < g'.nextId && (o.value >= g.nextId || (o.value == room && |pieces| == 4))
    requires SlotOk(g', base, box, roomRect, room, |pieces|, o)
    ensures SlotsOk(g', base, box, roomRect, room, pieces + [o])
  {
    var ps := pieces + [o];
    assert forall q :: 0 <= q < |pieces| ==> ps[q] == pieces[q];
    forall q | 0 <= q < |pieces| ensures PieceOk(g', base, box, roomRect, room, ps, q) {
      assert PieceOk(g, base, box, roomRect, room, pieces, q);
    }
    forall q | 0 <= q < |pieces| && q != 4 && pieces[q].Some? ensures pieces[q].value != room {
      assert PieceOk(g, base, box, roomRect, room, pieces, q);
    }
  }

  /** The loop of `SubdivideRegionsAroundRoom` that fills `newRegionsFixed` from slot `|pieces|`
      on, using `CreateRegionIfValid` for every slot but the middle one. */
  function CreatePieces(g: Graph, base: nat, box: Rect, roomRect: Rect, room: RegionId, pieces: seq<W.Option<RegionId>>)
    : (res: (Graph, seq<W.Option<RegionId>>))
    requires Wf(g) && room in g.store && room < base <= g.nextId && SlotsOk(g, base, box, roomRect, room, pieces)
    ensures Wf(res.0) && Evolves(g, res.0) && res.0.live == g.live
    ensures |res.1| == 9 && SlotsOk(res.0, base, box, roomRect, room, res.1)
    decreases 9 - |pieces|
  {
    var k := |pieces|;
    if k == 9 then (g, pieces)
    else
      var rect := Piece(box, roomRect, Col(k), Row(k));
      if k == 4 then
        SlotsOkSnoc(g, g, base, box, roomRect, room, pieces, W.Some(room));
        CreatePieces(g, base, box, roomRect, room, pieces + [W.Some(room)])
      else if Positive(rect) then
        var alloc := Alloc(g, rect, false);
        SlotsOkSnoc(g, alloc.0, base, box, roomRect, room, pieces, W.Some(alloc.1));
        var res := CreatePieces(alloc.0, base, box, roomRect, room, pieces + [W.Some(alloc.1)]);
        EvolvesTransitive(g, alloc.0, res.0);
        res
      else
        SlotsOkSnoc(g, g, base, box, roomRect, room, pieces, W.None);
        CreatePieces(g, base, box, roomRect, room, pieces + [W.None])
  }

  /** The pieces are created unconnected, so each is symmetric with every region. */
  lemma {:induction false} CreatePiecesKeepsSymmetry(g: Graph, base: nat, box: Rect, roomRect: Rect, room: RegionId,
                                                     pieces: seq<W.Option<RegionId>>, s: set<RegionId>)
    requires Wf(g) && room in g.store && room < base <= g.nextId && SlotsOk(g, base, box, roomRect, room, pieces)
    requires s <= g.store.Keys && Symmetric(g, s)
    ensures var made := CreatePieces(g, base, box, roomRect, room, pieces).0;
      Symmetric(made, s + (made.store.Keys - g.store.Keys))
    decreases 9 - |pieces|
  {
    var k := |pieces|;
    if k < 9 {
      var rect := Piece(box, roomRect, Col(k), Row(k));
      if k == 4 {
        SlotsOkSnoc(g, g, base, box, roomRect, room, pieces, W.Some(room));
        CreatePiecesKeepsSymmetry(g, base, box, roomRect, room, pieces + [W.Some(room)], s);
      } else if Positive(rect) {
        var alloc := Alloc(g, rect, false);
        AllocKeepsSymmetry(g, rect, false, s);
        SlotsOkSnoc(g, alloc.0, base, box, roomRect, room, pieces, W.Some(alloc.1));
        var made := CreatePieces(alloc.0, base, box, roomRect, room, pieces + [W.Some(alloc.1)]).0;
        CreatePiecesKeepsSymmetry(alloc.0, base, box, roomRect, room, pieces + [W.Some(alloc.1)], s + {alloc.1});
        assert s + {alloc.1} + (made.store.Keys - alloc.0.store.Keys) == s + (made.store.Keys - g.store.Keys);
      } else {
        SlotsOkSnoc(g, g, base, box, roomRect, room, pieces, W.None);
        CreatePiecesKeepsSymmetry(g, base, box, roomRect, room, pieces + [W.None], s);
      }
    }
  }

  /** `newRegions`: the created regions in slot order, the room among them. */
  function Present(pieces: seq<W.Option<RegionId>>): (ids: seq<RegionId>)
    ensures forall x :: x in ids <==> W.Some(x) in pieces
    ensures |ids| <= |pieces|
  {
    if |pieces| == 0 then []
    else
      var rest := Present(pieces[1..]);
      assert forall o :: o in pieces <==> o == pieces[0] || o in pieces[1..];
      if pieces[0].Some? then [pieces[0].value] + rest else rest
  }

  /** Slots holding different regions list each created region once. */
  lemma {:induction false} PresentNoDups(pieces: seq<W.Option<RegionId>>)
    requires DistinctSlots(pieces)
    ensures NoDups(Present(pieces))
    decreases |pieces|
  {
    if |pieces| > 0 {
      var rest := pieces[1..];
      assert DistinctSlots(rest) by {
        forall q, q' | 0 <= q < q' < |rest| && rest[q].Some? && rest[q'].Some?
          ensures rest[q].value != rest[q'].value
        {
          assert rest[q] == pieces[q + 1] && rest[q'] == pieces[q' + 1];
        }
      }
      PresentNoDups(rest);
      if pieces[0].Some? {
        forall q | 0 <= q < |rest| ensures rest[q] != pieces[0] {
          assert rest[q] == pieces[q + 1];
        }
        assert pieces[0] !in rest;
      }
    }
  }
  /** The pair `p` is one that the connecting loop of `SubdivideRegionsAroundRoom` visits at slot
      `q`: the piece there and the filled piece after it along z or along x. */
  predicate NeighbourPair(pieces: seq<W.Option<RegionId>>, q: nat, p: (RegionId, RegionId))
    requires |pieces| == 9 && q < 9
  {
    && pieces[q] == W.Some(p.0)
    && ((Row(q) < 2 && q + 1 < 9 && pieces[q + 1] == W.Some(p.1))
        || (Col(q) < 2 && q + 3 < 9 && pieces[q + 3] == W.Some(p.1)))
  }

  /** The pairs the connecting loop visits from slot `k` on, in its order. */
  function NeighbourPairs(pieces: seq<W.Option<RegionId>>, k: nat): (ps: seq<(RegionId, RegionId)>)
    requires |pieces| == 9 && k <= 9
    ensures forall p :: p in ps <==> exists q :: k <= q < 9 && NeighbourPair(pieces, q, p)
    decreases 9 - k
  {
    if k == 9 then []
    else
      var rest := NeighbourPairs(pieces, k + 1);
      NextSlots(k);
      if pieces[k].None? then rest
      else
        var along := if Row(k) < 2 && pieces[k + 1].Some? then [(pieces[k].value, pieces[k + 1].value)] else [];
        var across := if Col(k) < 2 && pieces[k + 3].Some? then [(pieces[k].value, pieces[k + 3].value)] else [];
        assert forall p :: NeighbourPair(pieces, k, p) <==> p in along + across;
        along + across + rest
  }

  /** Both ends of every pair name regions of `g`. */
  predicate PairsIn(g: Graph, ps: seq<(RegionId, RegionId)>) {
    forall i :: 0 <= i < |ps| ==> ps[i].0 in g.store && ps[i].1 in g.store
  }

  /** `ConnectRegions(lhs, rhs, direction)` as the loops here see it: the regions are linked when
      a direction is given or their rectangles touch, and lists only grow. */
  function Join(g: Graph, lhs: RegionId, rhs: RegionId, direction: Direction): (g': Graph)
    requires Wf(g) && lhs in g.store && rhs in g.store
    ensures Wf(g') && Evolves(g, g') && g'.store.Keys == g.store.Keys && g'.live == g.live
    ensures forall k :: k in g.store ==> Connections(g, k) <= Connections(g', k)
    ensures direction != None || TryGetAdjacency(Rectangle(g, lhs), Rectangle(g, rhs)) != None ==>
      Linked(g', lhs, rhs)
  {
    Connect(g, lhs, rhs, direction)
  }

  /** `ConnectRegions(lhs, rhs)` for each pair from position `i` on: a pair is connected in the
      direction its rectangles touch, and not at all when they do not touch. */
  function ConnectPairs(g: Graph, ps: seq<(RegionId, RegionId)>, i: nat): (g': Graph)
    requires Wf(g) && PairsIn(g, ps) && i <= |ps|
    ensures Wf(g') && Evolves(g, g') && g'.store.Keys == g.store.Keys && g'.live == g.live
    ensures forall k :: k in g.store ==> Connections(g, k) <= Connections(g', k)
    decreases |ps| - i
  {
    if i == |ps| then g
    else
      var g1 := Join(g, ps[i].0, ps[i].1, None);
      var g2 := ConnectPairs(g1, ps, i + 1);
      EvolvesTransitive(g, g1, g2);
      g2
  }

  /** The pair loop keeps directional symmetry among any regions it holds for. */
  lemma {:induction false} ConnectPairsKeepsSymmetry(g: Graph, ps: seq<(RegionId, RegionId)>, i: nat, s: set<RegionId>)
    requires Wf(g) && PairsIn(g, ps) && i <= |ps| && s <= g.store.Keys && Symmetric(g, s)
    ensures Symmetric(ConnectPairs(g, ps, i), s)
    decreases |ps| - i
  {
    if i < |ps| {
      var g1 := Join(g, ps[i].0, ps[i].1, None);
      var g2 := ConnectPairs(g1, ps, i + 1);
      assert g2 == ConnectPairs(g, ps, i);
      ConnectKeepsSymmetry(g, ps[i].0, ps[i].1, None, s);
      ConnectPairsKeepsSymmetry(g1, ps, i + 1, s);
    }
  }

  /** Every visited pair whose rectangles touch ends up linked. */
  lemma {:induction false} ConnectPairsLinks(g: Graph, ps: seq<(RegionId, RegionId)>, i: nat)
    requires Wf(g) && PairsIn(g, ps) && i <= |ps|
    ensures forall j :: i <= j < |ps| && TryGetAdjacency(Rectangle(g, ps[j].0), Rectangle(g, ps[j].1)) != None ==>
      Linked(ConnectPairs(g, ps, i), ps[j].0, ps[j].1)
    decreases |ps| - i
  {
    if i < |ps| {
      var g1 := Join(g, ps[i].0, ps[i].1, None);
      var g2 := ConnectPairs(g1, ps, i + 1);
      assert g2 == ConnectPairs(g, ps, i);
      ConnectPairsLinks(g1, ps, i + 1);
      forall j | i <= j < |ps| && TryGetAdjacency(Rectangle(g, ps[j].0), Rectangle(g, ps[j].1)) != None
        ensures Linked(g2, ps[j].0, ps[j].1)
      {
        var a := ps[j].0;
        var b := ps[j].1;
        if j == i {
          HasEdgeToGrows(Connections(g1, a), Connections(g2, a), b);
          HasEdgeToGrows(Connections(g1, b), Connections(g2, b), a);
        } else {
          assert Rectangle(g1, a) == Rectangle(g, a) && Rectangle(g1, b) == Rectangle(g, b);
        }
      }
    }
  }

  /** A pair of filled slots that the loop visits, whose rectangles touch, ends up linked. */
  lemma VisitedPairLinked(g: Graph, pieces: seq<W.Option<RegionId>>, q: nat, p: (RegionId, RegionId))
    requires Wf(g) && |pieces| == 9 && SlotsIn(g, pieces) && q < 9 && NeighbourPair(pieces, q, p)
    requires p.0 in g.store && p.1 in g.store && TryGetAdjacency(Rectangle(g, p.0), Rectangle(g, p.1)) != None
    ensures Linked(ConnectPieces(g, pieces), p.0, p.1)
  {
    var ps := NeighbourPairs(pieces, 0);
    assert p in ps;
    var j :| 0 <= j < |ps| && ps[j] == p;
    PairsOfSlots(g, pieces);
    ConnectPairsLinks(g, ps, 0);
  }

  /** The connecting loop of `SubdivideRegionsAroundRoom`. */
  function ConnectPieces(g: Graph, pieces: seq<W.Option<RegionId>>): (g': Graph)
    requires Wf(g) && |pieces| == 9 && SlotsIn(g, pieces)
    ensures Wf(g') && Evolves(g, g') && g'.store.Keys == g.store.Keys && g'.live == g.live
  {
    PairsOfSlots(g, pieces);
    ConnectPairs(g, NeighbourPairs(pieces, 0), 0)
  }

  /** Connecting the pieces keeps directional symmetry among any regions it holds for. */
  lemma ConnectPiecesKeepsSymmetry(g: Graph, pieces: seq<W.Option<RegionId>>, s: set<RegionId>)
    requires Wf(g) && |pieces| == 9 && SlotsIn(g, pieces) && s <= g.store.Keys && Symmetric(g, s)
    ensures Symmetric(ConnectPieces(g, pieces), s)
  {
    PairsOfSlots(g, pieces);
    ConnectPairsKeepsSymmetry(g, NeighbourPairs(pieces, 0), 0, s);
  }

  /** The visited pairs join filled slots, so they name regions of `g`. */
  lemma PairsOfSlots(g: Graph, pieces: seq<W.Option<RegionId>>)
    requires |pieces| == 9 && SlotsIn(g, pieces)
    ensures PairsIn(g, NeighbourPairs(pieces, 0))
  {
    var ps := NeighbourPairs(pieces, 0);
    forall i | 0 <= i < |ps| ensures ps[i].0 in g.store && ps[i].1 in g.store {
      assert ps[i] in ps;
      var q :| 0 <= q < 9 && NeighbourPair(pieces, q, ps[i]);
      NextSlots(q);
    }
  }

  /** Every filled slot names a region of `g`. */
  predicate SlotsIn(g: Graph, pieces: seq<W.Option<RegionId>>) {
    forall q :: 0 <= q < |pieces| && pieces[q].Some? ==> pieces[q].value in g.store
  }

  /** Slot arithmetic for the 3 by 3 grid: the next slot along z shares the column, the slot
      three on shares the row. */
  lemma NextSlots(k: nat)
    requires k < 9
    ensures Col(k) < 3 && Row(k) < 3 && k == 3 * Col(k) + Row(k)
    ensures Row(k) < 2 ==> k + 1 < 9 && Col(k + 1) == Col(k) && Row(k + 1) == Row(k) + 1
    ensures Col(k) < 2 ==> k + 3 < 9 && Col(k + 3) == Col(k) + 1 && Row(k + 3) == Row(k)
  {
  }

  /** `a` and `b` list each other. */
  predicate Linked(g: Graph, a: RegionId, b: RegionId)
    requires a in g.store && b in g.store
  {
    HasEdgeTo(Connections(g, a), b) && HasEdgeTo(Connections(g, b), a)
  }

  /** Every filled slot holds a region over its piece, and the piece has cells. */
  predicate PiecesPlaced(g: Graph, box: Rect, roomRect: Rect, pieces: seq<W.Option<RegionId>>) {
    && |pieces| == 9
    && (forall q :: 0 <= q < 9 && pieces[q].Some? ==>
          && pieces[q].value in g.store
          && Rectangle(g, pieces[q].value) == Piece(box, roomRect, Col(q), Row(q))
          && Positive(Piece(box, roomRect, Col(q), Row(q))))
  }

  /** When the room lies inside the box, filled slots are placed: the middle piece is the room. */
  lemma SlotsPlaced(g: Graph, base: nat, box: Rect, roomRect: Rect, room: RegionId, pieces: seq<W.Option<RegionId>>)
    requires SlotsOk(g, base, box, roomRect, room, pieces) && |pieces| == 9
    requires room in g.store && Rectangle(g, room) == roomRect && Positive(roomRect) && Encloses(box, roomRect)
    ensures PiecesPlaced(g, box, roomRect, pieces)
  {
    PiecesTileBox(box, roomRect, Cell(box.x, box.z));
    forall q | 0 <= q < 9 && pieces[q].Some?
      ensures pieces[q].value in g.store && Rectangle(g, pieces[q].value) == Piece(box, roomRect, Col(q), Row(q))
      ensures Positive(Piece(box, roomRect, Col(q), Row(q)))
    {
      NextSlots(q);
      assert PieceOk(g, base, box, roomRect, room, pieces, q);
    }
  }

  /** Connecting the pieces links every pair of filled neighbouring slots: the next along z and
      the next along x. */
  lemma ConnectPiecesLinks(g: Graph, box: Rect, roomRect: Rect, pieces: seq<W.Option<RegionId>>)
    requires Wf(g) && PiecesPlaced(g, box, roomRect, pieces) && Positive(roomRect) && Encloses(box, roomRect)
    ensures forall q :: 0 <= q < 9 && Row(q) < 2 && pieces[q].Some? && pieces[q + 1].Some? ==>
      Linked(ConnectPieces(g, pieces), pieces[q].value, pieces[q + 1].value)
    ensures forall q :: 0 <= q < 9 && Col(q) < 2 && pieces[q].Some? && pieces[q + 3].Some? ==>
      Linked(ConnectPieces(g, pieces), pieces[q].value, pieces[q + 3].value)
  {
    var g' := ConnectPieces(g, pieces);
    forall q | 0 <= q < 9
      ensures Row(q) < 2 && pieces[q].Some? && pieces[q + 1].Some? ==> Linked(g', pieces[q].value, pieces[q + 1].value)
      ensures Col(q) < 2 && pieces[q].Some? && pieces[q + 3].Some? ==> Linked(g', pieces[q].value, pieces[q + 3].value)
    {
      NextSlots(q);
      NeighbouringPiecesAdjacent(box, roomRect, Col(q), Row(q));
      if Row(q) < 2 && pieces[q].Some? && pieces[q + 1].Some? {
        VisitedPairLinked(g, pieces, q, (pieces[q].value, pieces[q + 1].value));
      }
      if Col(q) < 2 && pieces[q].Some? && pieces[q + 3].Some? {
        VisitedPairLinked(g, pieces, q, (pieces[q].value, pieces[q + 3].value));
      }
    }
  }

  // ---------------------------------------------------------------------------
  // Listing and stitching

  /** `AddRegionRangeToList(newRegions, allRegions)`: the regions are appended in order; none of
      them may be listed already. */
  function AddRange(g: Graph, ids: seq<RegionId>): (g': Graph)
    requires Wf(g) && AllIn(g, ids) && NoDups(ids)
    requires forall i :: 0 <= i < |ids| ==> ids[i] !in g.live
    ensures Wf(g') && Evolves(g, g') && g'.store == g.store && g'.nextId == g.nextId
    ensures g'.live == g.live + ids
    decreases |ids|
  {
    if |ids| == 0 then g
    else
      var g1 := AddToList(g, ids[0]);
      assert forall i :: 0 <= i < |ids| - 1 ==> ids[1..][i] == ids[i + 1];
      var g2 := AddRange(g1, ids[1..]);
      EvolvesTransitive(g, g1, g2);
      assert g.live + ids == g.live + [ids[0]] + ids[1..];
      g2
  }

  /** The regions of `ids` that border `target`, in order: `adjacentRegions`. */
  function AdjacentTo(g: Graph, ids: seq<RegionId>, target: RegionId): (adj: seq<RegionId>)
    requires AllIn(g, ids) && target in g.store
    ensures AllIn(g, adj) && |adj| <= |ids|
    ensures forall x :: x in adj <==> x in ids && TryGetAdjacency(Rectangle(g, x), Rectangle(g, target)) != None
    decreases |ids|
  {
    if |ids| == 0 then []
    else
      assert forall i :: 0 <= i < |ids| - 1 ==> ids[1..][i] == ids[i + 1];
      assert forall x :: x in ids <==> x == ids[0] || x in ids[1..];
      var rest := AdjacentTo(g, ids[1..], target);
      if TryGetAdjacency(Rectangle(g, ids[0]), Rectangle(g, target)) != None then [ids[0]] + rest else rest
  }

  /** `ConnectRegions(adjacentRegions[i], connectedRegion, connectedDirection)` for every `i`
      from position `i`: with a direction given, each of them ends up linked with `target`. */
  function ConnectAll(g: Graph, ids: seq<RegionId>, i: nat, target: RegionId, direction: Direction): (g': Graph)
    requires Wf(g) && AllIn(g, ids) && target in g.store && i <= |ids|
    ensures Wf(g') && Evolves(g, g') && g'.store.Keys == g.store.Keys && g'.live == g.live
    ensures forall k :: k in g.store ==> Connections(g, k) <= Connections(g', k)
    ensures SymmetricLive(g) ==> SymmetricLive(g')
    decreases |ids| - i
  {
    if i == |ids| then g
    else
      var g1 := Join(g, ids[i], target, direction);
      ConnectKeepsSymmetricLive(g, ids[i], target, direction);
      var g2 := ConnectAll(g1, ids, i + 1, target, direction);
      EvolvesTransitive(g, g1, g2);
      g2
  }

  /** With a direction given, every listed region ends up linked with `target`. */
  lemma {:induction false} ConnectAllLinks(g: Graph, ids: seq<RegionId>, i: nat, target: RegionId, direction: Direction)
    requires Wf(g) && AllIn(g, ids) && target in g.store && i <= |ids| && direction != None
    ensures forall j :: i <= j < |ids| ==> Linked(ConnectAll(g, ids, i, target, direction), ids[j], target)
    decreases |ids| - i
  {
    if i < |ids| {
      var g1 := Join(g, ids[i], target, direction);
      var g2 := ConnectAll(g1, ids, i + 1, target, direction);
      assert g2 == ConnectAll(g, ids, i, target, direction);
      ConnectAllLinks(g1, ids, i + 1, target, direction);
      forall j | i <= j < |ids| ensures Linked(g2, ids[j], target) {
        if j == i {
          HasEdgeToGrows(Connections(g1, ids[i]), Connections(g2, ids[i]), target);
          HasEdgeToGrows(Connections(g1, target), Connections(g2, target), ids[i]);
        }
      }
    }
  }

  /** Region lists keep naming ordinary regions as the graph evolves. */
  lemma OrdinaryEvolves(g: Graph, g': Graph, ids: seq<RegionId>)
    requires Ordinary(g, ids) && Evolves(g, g')
    ensures Ordinary(g', ids) && AllIn(g', ids)
  {
    forall k | 0 <= k < |ids| ensures ids[k] in g'.store && !g'.store[ids[k]].isRoom {
      assert ids[k] in g.store;
    }
  }

  lemma ConnectionsInStoreEvolves(g: Graph, g': Graph, es: seq<Edge>)
    requires InStore(g, es) && Evolves(g, g')
    ensures InStore(g', es)
  {
    forall k | 0 <= k < |es| ensures es[k].to in g'.store {
      assert es[k].to in g.store;
    }
  }

  lemma AllInEvolves(g: Graph, g': Graph, ids: seq<RegionId>)
    requires AllIn(g, ids) && Evolves(g, g')
    ensures AllIn(g', ids)
  {
    forall k | 0 <= k < |ids| ensures ids[k] in g'.store {
      assert ids[k] in g.store;
    }
  }

  /** A region that has left `allRegions` never comes back: only new regions join it. */
  lemma GoneStaysGone(g: Graph, g': Graph, x: RegionId)
    requires Extends(g, g') && Wf(g) && x in g.store && x !in g.live
    ensures x !in g'.live
  {
  }

  /** Removing an ordinary region from `allRegions` is a step of the level builder. */
  lemma DiscardExtends(g: Graph, r: RegionId)
    requires Wf(g) && r in g.store && !IsRoom(g, r)
    ensures Extends(g, Discard(g, r)) && r !in Discard(g, r).live
  {
  }

  /** The inner loop of the stitching: each connection `e` of a reconstructed region that leads
      outside the reconstructed regions is handed to the new regions bordering it, either by
      connecting each of them or, when it is an ordinary region bordered by several, by
      subdividing it to match them. */
  function StitchEdges(g: Graph, es: seq<Edge>, j: nat, intersecting: seq<RegionId>, newRegions: seq<RegionId>, fuel: nat)
    : (g': Graph)
    requires Wf(g) && InStore(g, es) && AllIn(g, newRegions) && j <= |es|
    ensures Extends(g, g')
    ensures SymmetricLive(g) ==> SymmetricLive(g')
    decreases |es| - j
  {
    if j == |es| then g
    else
      var e := es[j];
      var g1 :=
        if e.to in intersecting then g
        else
          var adjacent := AdjacentTo(g, newRegions, e.to);
          if |adjacent| < 2 || IsRoom(g, e.to) then
            var g' := ConnectAll(g, adjacent, 0, e.to, e.dir);
            SameListExtends(g, g');
            g'
          else
            MatchNeighbours(g, e.to, adjacent, e.dir, fuel);
      ConnectionsInStoreEvolves(g, g1, es);
      AllInEvolves(g, g1, newRegions);
      var g2 := StitchEdges(g1, es, j + 1, intersecting, newRegions, fuel);
      ExtendsTransitive(g, g1, g2);
      g2
  }

  /** The outer loop of the stitching from position `i`: each intersected region leaves
      `allRegions` and its connections, as they stand after the removal, are handed over. */
  function Stitch(g: Graph, intersecting: seq<RegionId>, i: nat, newRegions: seq<RegionId>, fuel: nat): (g': Graph)
    requires Wf(g) && Ordinary(g, intersecting) && AllIn(g, newRegions) && i <= |intersecting|
    ensures Extends(g, g')
    ensures SymmetricLive(g) ==> SymmetricLive(g')
    decreases |intersecting| - i
  {
    if i == |intersecting| then g
    else
      var r := intersecting[i];
      var g1 := Discard(g, r);
      DiscardExtends(g, r);
      ConnectionsInStore(g1, g1, r);
      OrdinaryEvolves(g, g1, intersecting);
      AllInEvolves(g, g1, newRegions);
      var g2 := StitchEdges(g1, Connections(g1, r), 0, intersecting, newRegions, fuel);
      OrdinaryEvolves(g1, g2, intersecting);
      AllInEvolves(g1, g2, newRegions);
      var g3 := Stitch(g2, intersecting, i + 1, newRegions, fuel);
      ExtendsTransitive(g1, g2, g3);
      ExtendsTransitive(g, g1, g3);
      g3
  }

  /** Every intersected region from position `i` on has left `allRegions` once the stitching is
      done, and stays out. */
  lemma {:induction false} StitchRemoves(g: Graph, intersecting: seq<RegionId>, i: nat, newRegions: seq<RegionId>, fuel: nat)
    requires Wf(g) && Ordinary(g, intersecting) && AllIn(g, newRegions) && i <= |intersecting|
    ensures forall k :: i <= k < |intersecting| ==> intersecting[k] !in Stitch(g, intersecting, i, newRegions, fuel).live
    decreases |intersecting| - i
  {
    if i < |intersecting| {
      var r := intersecting[i];
      var g1 := Discard(g, r);
      DiscardExtends(g, r);
      ConnectionsInStore(g1, g1, r);
      OrdinaryEvolves(g, g1, intersecting);
      AllInEvolves(g, g1, newRegions);
      var g2 := StitchEdges(g1, Connections(g1, r), 0, intersecting, newRegions, fuel);
      OrdinaryEvolves(g1, g2, intersecting);
      AllInEvolves(g1, g2, newRegions);
      var g3 := Stitch(g2, intersecting, i + 1, newRegions, fuel);
      assert g3 == Stitch(g, intersecting, i, newRegions, fuel);
      StitchRemoves(g2, intersecting, i + 1, newRegions, fuel);
      ExtendsTransitive(g1, g2, g3);
      forall k | i <= k < |intersecting| ensures intersecting[k] !in g3.live {
        if k == i {
          GoneStaysGone(g1, g3, r);
        }
      }
    }
  }

  // ---------------------------------------------------------------------------
  // Settling the pieces

  /** The direction in which the piece in slot `k` is merged and matched: outward from the room,
      with front and back taking precedence over left and right at the corners, and `None` for
      the room itself. */
  function SettleDirection(k: nat): Direction {
    if Row(k) == 0 then Backward
    else if Row(k) == 2 then Forward
    else if Col(k) == 0 then Left
    else if Col(k) == 2 then Right
    else None
  }

  /** `p` lies wholly beyond side `d` of `room`. */
  predicate Beyond(p: Rect, room: Rect, d: Direction) {
    match d
    case Forward => p.Back() > room.Front()
    case Backward => p.Front() < room.Back()
    case Left => p.Right() < room.Left()
    case Right => p.Left() > room.Right()
    case None => false
  }

  /** Every slot but the middle one settles in a real direction, and its piece lies beyond the
      room on that side: the settling works outward from the room. */
  lemma SettleDirectionOutward(box: Rect, roomRect: Rect, k: nat)
    requires k < 9
    ensures SettleDirection(k) == None <==> k == 4
    ensures k != 4 ==> Beyond(Piece(box, roomRect, Col(k), Row(k)), roomRect, SettleDirection(k))
  {
    NextSlots(k);
  }

  /** Every filled slot but the middle one holds an ordinary region of `g`. */
  predicate SlotsOrdinary(g: Graph, pieces: seq<W.Option<RegionId>>) {
    forall q :: 0 <= q < |pieces| && pieces[q].Some? ==> pieces[q].value in g.store && (q == 4 || !IsRoom(g, pieces[q].value))
  }

  lemma SlotsOrdinaryEvolves(g: Graph, g': Graph, pieces: seq<W.Option<RegionId>>)
    requires SlotsOrdinary(g, pieces) && Evolves(g, g')
    ensures SlotsOrdinary(g', pieces)
  {
    forall q | 0 <= q < |pieces| && pieces[q].Some?
      ensures pieces[q].value in g'.store && (q == 4 || !IsRoom(g', pieces[q].value))
    {
      assert pieces[q].value in g.store;
    }
  }

  /** The settling loop from slot `k`: each filled piece other than the room is merged with the
      regions beyond it and then subdivided to match what lies beyond. */
  function Settle(g: Graph, pieces: seq<W.Option<RegionId>>, k: nat, fuel: nat): (g': Graph)
    requires Wf(g) && |pieces| == 9 && k <= 9 && SlotsOrdinary(g, pieces)
    ensures Extends(g, g')
    ensures SymmetricLive(g) ==> SymmetricLive(g')
    decreases 9 - k
  {
    if k == 9 then g
    else
      var d := SettleDirection(k);
      if pieces[k].None? || d == None then
        Settle(g, pieces, k + 1, fuel)
      else
        var r := pieces[k].value;
        assert k != 4 by { NextSlots(k); }
        var g1 := Merge(g, r, d, fuel);
        var g2 := MatchDivisions(g1, r, d, fuel);
        ExtendsTransitive(g, g1, g2);
        var g3 := Settle(g2, pieces, k + 1, fuel);
        ExtendsTransitive(g, g2, g3);
        g3
  }

  // ---------------------------------------------------------------------------
  // The whole subdivision

  /** `aggregateRegion.regions.Where(entry => RoomIntersectsRegion(room, entry))`, in order. */
  function Intersecting(g: Graph, ids: seq<RegionId>, roomRect: Rect): (rs: seq<RegionId>)
    requires Ordinary(g, ids)
    ensures Ordinary(g, rs) && AllIn(g, rs) && |rs| <= |ids|
    ensures forall x :: x in rs <==> x in ids && Intersects(roomRect, Rectangle(g, x))
    decreases |ids|
  {
    if |ids| == 0 then []
    else
      assert forall i :: 0 <= i < |ids| - 1 ==> ids[1..][i] == ids[i + 1];
      assert forall x :: x in ids <==> x == ids[0] || x in ids[1..];
      var rest := Intersecting(g, ids[1..], roomRect);
      if Intersects(roomRect, Rectangle(g, ids[0])) then [ids[0]] + rest else rest
  }

  /** The filled slots of a finished grid, as the later loops need them. */
  lemma SlotsReady(g: Graph, base: nat, box: Rect, roomRect: Rect, room: RegionId, pieces: seq<W.Option<RegionId>>)
    requires SlotsOk(g, base, box, roomRect, room, pieces) && |pieces| == 9 && room in g.store
    ensures SlotsIn(g, pieces) && SlotsOrdinary(g, pieces)
    ensures AllIn(g, Present(pieces)) && room in Present(pieces)
    ensures forall x :: x in Present(pieces) ==> x == room || x >= base
  {
    forall q | 0 <= q < 9 && pieces[q].Some?
      ensures pieces[q].value in g.store && (q == 4 || !IsRoom(g, pieces[q].value))
      ensures pieces[q].value == room || pieces[q].value >= base
    {
      assert PieceOk(g, base, box, roomRect, room, pieces, q);
    }
    assert PieceOk(g, base, box, roomRect, room, pieces, 4);
    assert pieces[4] == W.Some(room);
    var ids := Present(pieces);
    forall i | 0 <= i < |ids| ensures ids[i] in g.store {
      assert ids[i] in ids;
    }
  }

  /** The first half of `SubdivideRegionsAroundRoom`: the pieces around the room are created,
      connected to each other and added to `allRegions` together with the room. */
  function Carve(g: Graph, box: Rect, room: RegionId): (res: (Graph, seq<W.Option<RegionId>>))
    requires Wf(g) && room in g.store && room !in g.live
    ensures Wf(res.0) && Evolves(g, res.0) && |res.1| == 9
    ensures res.0.live == g.live + Present(res.1)
    ensures SlotsOrdinary(res.0, res.1) && AllIn(res.0, Present(res.1)) && room in Present(res.1)
    ensures forall x :: x in Present(res.1) ==> x == room || x >= g.nextId
    ensures Symmetric(g, LiveSet(g) + {room}) ==> SymmetricLive(res.0)
  {
    var made := CreatePieces(g, g.nextId, box, Rectangle(g, room), room, []);
    var pieces := made.1;
    SlotsReady(made.0, g.nextId, box, Rectangle(g, room), room, pieces);
    PresentNoDups(pieces);
    var g2 := ConnectPieces(made.0, pieces);
    var ids := Present(pieces);
    AllInEvolves(made.0, g2, ids);
    assert forall i :: 0 <= i < |ids| ==> ids[i] !in g2.live by {
      forall i | 0 <= i < |ids| ensures ids[i] !in g2.live {
        assert ids[i] in ids;
      }
    }
    var g3 := AddRange(g2, ids);
    EvolvesTransitive(made.0, g2, g3);
    EvolvesTransitive(g, made.0, g3);
    assert SlotsOrdinary(g3, pieces) by {
      forall q | 0 <= q < 9 && pieces[q].Some?
        ensures pieces[q].value in g3.store && (q == 4 || !IsRoom(g3, pieces[q].value))
      {
        assert pieces[q].value in made.0.store;
      }
    }
    CarveKeepsSymmetry(g, box, room, made.0, pieces, g2, g3);
    (g3, pieces)
  }

  /** The carving keeps `allRegions` symmetric when the room was symmetric with the listed
      regions: the pieces are created unconnected, connected in pairs, and then listed. */
  lemma CarveKeepsSymmetry(g: Graph, box: Rect, room: RegionId, made: Graph, pieces: seq<W.Option<RegionId>>,
                           g2: Graph, g3: Graph)
    requires Wf(g) && room in g.store && room !in g.live
    requires (made, pieces) == CreatePieces(g, g.nextId, box, Rectangle(g, room), room, [])
    requires SlotsIn(made, pieces) && g2 == ConnectPieces(made, pieces)
    requires Wf(g3) && g3.store == g2.store && g3.live == g.live + Present(pieces)
    requires forall x :: x in Present(pieces) ==> x == room || x >= g.nextId
    ensures Symmetric(g, LiveSet(g) + {room}) ==> SymmetricLive(g3)
  {
    if Symmetric(g, LiveSet(g) + {room}) {
      var t := LiveSet(g) + {room} + (made.store.Keys - g.store.Keys);
      CreatePiecesKeepsSymmetry(g, g.nextId, box, Rectangle(g, room), room, [], LiveSet(g) + {room});
      ConnectPiecesKeepsSymmetry(made, pieces, t);
      var ids := Present(pieces);
      assert forall k :: k in g.store ==> k < g.nextId;
      forall x | x in LiveSet(g3) ensures x in t {
        if x !in g.live {
          assert x in ids;
        }
      }
      SymmetricSubset(g2, t, LiveSet(g3));
      SymmetricSameStore(g2, g3, LiveSet(g3));
    }
  }

  /** `SubdivideRegionsAroundRoom(aggregateRegion, room, allRegions)`: the room joins
      `allRegions`, every other region that joins it is new, and no listed room leaves it. */
  function SubdivideAroundRoom(g: Graph, aggregate: seq<RegionId>, room: RegionId, fuel: nat): (g': Graph)
    requires Wf(g) && Ordinary(g, aggregate) && room in g.store && IsRoom(g, room) && room !in g.live
    ensures Wf(g') && Evolves(g, g') && RoomsStayLive(g, g')
    ensures forall x :: x in g'.live ==> x in g.live || x >= g.nextId || x == room
    ensures room in g'.live
    ensures Symmetric(g, LiveSet(g) + {room}) ==> SymmetricLive(g')
  {
    var roomRect := Rectangle(g, room);
    var intersecting := Intersecting(g, aggregate, roomRect);
    var carved := Carve(g, AggregateBox(g, intersecting), room);
    var g3 := carved.0;
    var newRegions := Present(carved.1);
    OrdinaryEvolves(g, g3, intersecting);
    var g4 := Stitch(g3, intersecting, 0, newRegions, fuel);
    SlotsOrdinaryEvolves(g3, g4, carved.1);
    var g5 := Settle(g4, carved.1, 0, fuel);
    ExtendsTransitive(g3, g4, g5);
    ListedAfterCarve(g, g3, g5, newRegions, room);
    g5
  }

  /** What `allRegions` holds at the end of the subdivision, from what it held after the carving. */
  lemma ListedAfterCarve(g: Graph, g3: Graph, g5: Graph, ids: seq<RegionId>, room: RegionId)
    requires Evolves(g, g3) && Extends(g3, g5) && g3.live == g.live + ids && room in ids
    requires room in g.store && IsRoom(g, room)
    requires forall x :: x in ids ==> x == room || x >= g.nextId
    ensures Evolves(g, g5) && RoomsStayLive(g, g5) && room in g5.live
    ensures forall x :: x in g5.live ==> x in g.live || x >= g.nextId || x == room
  {
    EvolvesTransitive(g, g3, g5);
    assert room in g3.live;
  }

  /** Every intersected region of the aggregate has left `allRegions` once the room is in. */
  lemma SubdivideRemovesIntersecting(g: Graph, aggregate: seq<RegionId>, room: RegionId, fuel: nat)
    requires Wf(g) && Ordinary(g, aggregate) && room in g.store && IsRoom(g, room) && room !in g.live
    ensures forall x :: x in aggregate && Intersects(Rectangle(g, room), Rectangle(g, x)) ==>
      x !in SubdivideAroundRoom(g, aggregate, room, fuel).live
  {
    var roomRect := Rectangle(g, room);
    var intersecting := Intersecting(g, aggregate, roomRect);
    var carved := Carve(g, AggregateBox(g, intersecting), room);
    var g3 := carved.0;
    var newRegions := Present(carved.1);
    OrdinaryEvolves(g, g3, intersecting);
    var g4 := Stitch(g3, intersecting, 0, newRegions, fuel);
    StitchRemoves(g3, intersecting, 0, newRegions, fuel);
    SlotsOrdinaryEvolves(g3, g4, carved.1);
    var g5 := Settle(g4, carved.1, 0, fuel);
    assert g5 == SubdivideAroundRoom(g, aggregate, room, fuel);
    forall x | x in aggregate && Intersects(roomRect, Rectangle(g, x)) ensures x !in g5.live {
      assert x in intersecting;
      var k :| 0 <= k < |intersecting| && intersecting[k] == x;
      GoneStaysGone(g4, g5, x);
    }
  }

  /** A step that allocates `room` and then changes the graph the way `SubdivideAroundRoom` does
      extends the graph. */
  lemma AllocThenExtends(g: Graph, g1: Graph, g2: Graph, room: RegionId)
    requires Wf(g) && Evolves(g, g1) && g1.live == g.live && room == g.nextId && g1.nextId == g.nextId + 1
    requires Wf(g2) && Evolves(g1, g2) && RoomsStayLive(g1, g2)
    requires forall x :: x in g2.live ==> x in g1.live || x >= g1.nextId || x == room
    ensures Extends(g, g2)
  {
    EvolvesTransitive(g, g1, g2);
  }

  /** `AddRoom`: a new room over `rect` is created and the aggregate is subdivided around it. */
  function AddRoom(g: Graph, rect: Rect, aggregate: seq<RegionId>, fuel: nat): (res: (Graph, RegionId))
    requires Wf(g) && Ordinary(g, aggregate)
    ensures Extends(g, res.0) && res.1 == g.nextId && res.1 in res.0.store && res.1 in res.0.live
    ensures IsRoom(res.0, res.1) && Rectangle(res.0, res.1) == rect
    ensures SymmetricLive(g) ==> SymmetricLive(res.0)
  {
    var alloc := Alloc(g, rect, true);
    AllocKeepsSymmetricLive(g, rect, true);
    OrdinaryEvolves(g, alloc.0, aggregate);
    assert alloc.1 !in g.live by {
      assert forall i :: 0 <= i < |g.live| ==> g.live[i] in g.store;
    }
    var g' := SubdivideAroundRoom(alloc.0, aggregate, alloc.1, fuel);
    AllocThenExtends(g, alloc.0, g', alloc.1);
    (g', alloc.1)
  }

  // ---------------------------------------------------------------------------
  // Choosing the room

  /** The largest room the target regions allow in each dimension, never above the setting. */
  function MaxSize(box: Rect, maxRoomSize: int): (int, int) {
    (Min(box.width, maxRoomSize), Min(box.depth, maxRoomSize))
  }

  /** A room of the minimum size fits in both dimensions. */
  predicate SizeFits(box: Rect, minRoomSize: int, maxRoomSize: int) {
    MaxSize(box, maxRoomSize).0 >= minRoomSize && MaxSize(box, maxRoomSize).1 >= minRoomSize
  }

  /** Moves the origin so that the room sits directly beyond side `fromDirection` of `prev`. */
  function SnapBeyond(prev: Rect, fromDirection: Direction, w: int, d: int, ox: int, oz: int): (int, int) {
    match fromDirection
    case Forward => (ox, prev.Front() + 1)
    case Backward => (ox, prev.Back() - d)
    case Left => (prev.Left() - w, oz)
    case Right => (prev.Right() + 1, oz)
    case None => (ox, oz)
  }

  /** The origin of a room of `w` by `d` next to `prev`: across the side it is drawn from the range
      that keeps two cells of overlap with `prev` and stays inside `box`; there is none when that
      range is empty. */
  function PlaceBeside(prev: Rect, fromDirection: Direction, w: int, d: int, box: Rect, rng: Rng)
    : (r: (W.Option<(int, int)>, Rng))
  {
    if fromDirection == Forward || fromDirection == Backward then
      var xMin := Max(prev.Left() - w + 2, box.Left());
      var xMax := Min(prev.Right() - 1, box.Right() - w + 1);
      if xMin > xMax then (W.None, rng)
      else
        var (x, rng') := NextRange(rng, xMin, xMax);
        (W.Some(SnapBeyond(prev, fromDirection, w, d, x, 0)), rng')
    else
      var zMin := Max(prev.Back() - d + 2, box.Back());
      var zMax := Min(prev.Front() - 1, box.Front() - d + 1);
      if zMin > zMax then (W.None, rng)
      else
        var (z, rng') := NextRange(rng, zMin, zMax);
        (W.Some(SnapBeyond(prev, fromDirection, w, d, 0, z)), rng')
  }

  /** The rectangle `TryAddRoomToRegion` proposes for the new room: two draws for the size, then
      either the centre of the level for the first room or a draw for the position next to the
      previous room. */
  function ProposeRoom(box: Rect, prev: W.Option<Rect>, fromDirection: Direction, minRoomSize: int, maxRoomSize: int, rng: Rng)
    : (r: (W.Option<Rect>, Rng))
    ensures !SizeFits(box, minRoomSize, maxRoomSize) ==> r == (W.None, rng)
    ensures SizeFits(box, minRoomSize, maxRoomSize) ==> r.1.pos >= rng.pos + 2 && r.1.source == rng.source
    ensures r.0.Some? ==>
      && minRoomSize <= r.0.value.width <= MaxSize(box, maxRoomSize).0
      && minRoomSize <= r.0.value.depth <= MaxSize(box, maxRoomSize).1
  {
    var (maxW, maxD) := MaxSize(box, maxRoomSize);
    if maxW < minRoomSize || maxD < minRoomSize then (W.None, rng)
    else
      var (w, rng1) := NextRange(rng, minRoomSize, maxW + 1);
      var (d, rng2) := NextRange(rng1, minRoomSize, maxD + 1);
      match prev
      case None =>
        // both differences are non-negative, so C#'s truncating division agrees with Dafny's
        (W.Some(Rect((box.width - w) / 2, (box.depth - d) / 2, w, d)), rng2)
      case Some(p) =>
        var (origin, rng3) := PlaceBeside(p, fromDirection, w, d, box, rng2);
        if origin.None? then (W.None, rng3)
        else (W.Some(Rect(origin.value.0, origin.value.1, w, d)), rng3)
  }

  /** The first room is centred in the target box: it lies inside `[0, width) x [0, depth)` of
      the box's size, and its margins on opposite sides differ by at most one cell. */
  lemma FirstRoomCentred(box: Rect, minRoomSize: int, maxRoomSize: int, rng: Rng)
    requires ProposeRoom(box, W.None, Forward, minRoomSize, maxRoomSize, rng).0.Some?
    ensures var room := ProposeRoom(box, W.None, Forward, minRoomSize, maxRoomSize, rng).0.value;
      && 0 <= room.x && room.x + room.width <= box.width
      && 0 <= room.z && room.z + room.depth <= box.depth
      && 0 <= (box.width - room.x - room.width) - room.x <= 1
      && 0 <= (box.depth - room.z - room.depth) - room.z <= 1
  {
  }

  /** A room placed next to a previous room borders it on the side it was drawn from, reaching
      at least one cell past the previous room's first column (or row) along that side and
      starting at least one cell before its last. */
  lemma PlacedRoomAdjoins(box: Rect, prev: Rect, fromDirection: Direction, minRoomSize: int, maxRoomSize: int, rng: Rng)
    requires Positive(prev) && minRoomSize >= 1 && fromDirection != None
    requires ProposeRoom(box, W.Some(prev), fromDirection, minRoomSize, maxRoomSize, rng).0.Some?
    ensures var room := ProposeRoom(box, W.Some(prev), fromDirection, minRoomSize, maxRoomSize, rng).0.value;
      && TryGetAdjacency(prev, room) == fromDirection
      && Touches(prev, room, fromDirection)
      && (fromDirection == Forward || fromDirection == Backward ==>
            room.Right() >= prev.Left() + 1 && room.Left() <= prev.Right() - 1)
      && (fromDirection == Left || fromDirection == Right ==>
            room.Front() >= prev.Back() + 1 && room.Back() <= prev.Front() - 1)
  {
    var room := ProposeRoom(box, W.Some(prev), fromDirection, minRoomSize, maxRoomSize, rng).0.value;
    AdjacencyMeansTouching(prev, room, fromDirection);
  }

  /** The outcome of `TryAddRoomToRegion`: the level so far, the generator, and the new room. */
  datatype Placement = Placement(g: Graph, rng: Rng, room: W.Option<RegionId>)

  /** The bounds of `targetRegions`: the current region and the regions found orthogonally
      around it. */
  function TargetBox(g: Graph, current: RegionId, fromDirection: Direction, fuel: nat): Rect
    requires current in g.store
  {
    AggregateBox(g, FindOrthogonalRegions(g, current, fromDirection, fuel))
  }

  /** The room `TryAddRoomToRegion` proposes in the level `g`, with the generator after the draws. */
  function Proposal(g: Graph, rng: Rng, prev: W.Option<RegionId>, fromDirection: Direction, current: RegionId,
                    minRoomSize: int, maxRoomSize: int, fuel: nat): (W.Option<Rect>, Rng)
    requires current in g.store && (prev.Some? ==> prev.value in g.store)
  {
    var prevRect := if prev.Some? then W.Some(Rectangle(g, prev.value)) else W.None;
    ProposeRoom(TargetBox(g, current, fromDirection, fuel), prevRect, fromDirection, minRoomSize, maxRoomSize, rng)
  }

  /** `TryAddRoomToRegion(previousRoom, fromDirection, currentRegion, ...)`: the proposed room is
      added when there is one, and otherwise the level is left as it was. */
  function TryAddRoom(g: Graph, rng: Rng, prev: W.Option<RegionId>, fromDirection: Direction, current: RegionId,
                      minRoomSize: int, maxRoomSize: int, fuel: nat): (r: Placement)
    requires Wf(g) && current in g.store && !IsRoom(g, current)
    requires prev.Some? ==> prev.value in g.store
    ensures r.rng == Proposal(g, rng, prev, fromDirection, current, minRoomSize, maxRoomSize, fuel).1
    ensures r.room.None? <==> Proposal(g, rng, prev, fromDirection, current, minRoomSize, maxRoomSize, fuel).0.None?
    ensures r.room.None? ==> r.g == g
    ensures r.room.Some? ==>
      && Extends(g, r.g) && r.room.value == g.nextId && r.room.value in r.g.store && r.room.value in r.g.live
      && IsRoom(r.g, r.room.value)
      && W.Some(Rectangle(r.g, r.room.value)) == Proposal(g, rng, prev, fromDirection, current, minRoomSize, maxRoomSize, fuel).0
    ensures SymmetricLive(g) ==> SymmetricLive(r.g)
  {
    var targets := FindOrthogonalRegions(g, current, fromDirection, fuel);
    var (proposed, rng') := Proposal(g, rng, prev, fromDirection, current, minRoomSize, maxRoomSize, fuel);
    if proposed.None? then Placement(g, rng', W.None)
    else
      assert Ordinary(g, targets) by {
        forall k | 0 <= k < |targets| ensures targets[k] in g.store && !g.store[targets[k]].isRoom {
        }
      }
      var (g', room) := AddRoom(g, proposed.value, targets, fuel);
      Placement(g', rng', W.Some(room))
  }
}
