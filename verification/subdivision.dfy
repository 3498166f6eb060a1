/** The subdivision engine of `LevelBuilder`: splitting a region along a coordinate and
    carrying its connections over to the halves, propagating a split along a direction,
    matching the divisions of neighbouring regions, merging convergent regions, searching the
    graph in a direction and disabling regions too small for a room.
    Recursion through the graph carries a `fuel` bound; see the README. */
module Subdivision {
  import opened Grid
  import opened Rects
  import opened RegionGraph
  import W = Wrappers

  /** Only connection lists change, and each only by gaining entries at its end. */
  predicate ConnectionsGrow(g: Graph, g': Graph) {
    && g'.store.Keys == g.store.Keys && g'.live == g.live && g'.nextId == g.nextId
    && (forall k :: k in g.store ==>
          Connections(g, k) <= Connections(g', k) && SameAttributes(g.store[k], g'.store[k]))
  }

  /** The side of a split region whose half keeps a connection in direction `d`: the back or
      left half keeps backward and left connections, the other half the rest. */
  function KeepingHalf(d: Direction, a: RegionId, b: RegionId): RegionId {
    if d == Backward || d == Left then a else b
  }

  lemma ConnectionsGrowTransitive(g: Graph, g': Graph, g'': Graph)
    requires ConnectionsGrow(g, g') && ConnectionsGrow(g', g'')
    ensures ConnectionsGrow(g, g'')
  {
  }

  /** Connections carried over to the halves before later iterations stay in place. */
  lemma ApplyStep(g1: Graph, g2: Graph, es: seq<Edge>, a: RegionId, b: RegionId, direction: Direction)
    requires |es| > 0 && a in g1.store && b in g1.store && ConnectionsGrow(g1, g2)
    requires IsOrthogonal(es[0].dir, direction) ==> HasEdgeTo(Connections(g1, KeepingHalf(es[0].dir, a, b)), es[0].to)
    requires forall e :: e in es[1..] && IsOrthogonal(e.dir, direction) ==>
      HasEdgeTo(Connections(g2, KeepingHalf(e.dir, a, b)), e.to)
    ensures forall e :: e in es && IsOrthogonal(e.dir, direction) ==>
      HasEdgeTo(Connections(g2, KeepingHalf(e.dir, a, b)), e.to)
  {
    var h := KeepingHalf(es[0].dir, a, b);
    if IsOrthogonal(es[0].dir, direction) {
      HasEdgeToGrows(Connections(g1, h), Connections(g2, h), es[0].to);
    }
    assert forall e :: e in es ==> e == es[0] || e in es[1..];
  }

  /** One iteration of `ApplyConnectionsToSubregions` for the connection `e` of the split region. */
  function ApplyConnection(g: Graph, e: Edge, a: RegionId, b: RegionId, direction: Direction): (g': Graph)
    requires Wf(g) && a in g.store && b in g.store && e.to in g.store
    ensures Wf(g') && Evolves(g, g') && ConnectionsGrow(g, g')
    ensures IsOrthogonal(e.dir, direction) ==> HasEdgeTo(Connections(g', KeepingHalf(e.dir, a, b)), e.to)
  {
    if IsOrthogonal(e.dir, direction) then
      Connect(g, KeepingHalf(e.dir, a, b), e.to, e.dir)
    else if e.dir != direction then TryConnectBoth(g, a, b, e.to)
    else g
  }

  /** `TryConnectRegions` of each half with the region `n`, in that order. */
  function TryConnectBoth(g: Graph, a: RegionId, b: RegionId, n: RegionId): (g': Graph)
    requires Wf(g) && a in g.store && b in g.store && n in g.store
    ensures Wf(g') && Evolves(g, g') && ConnectionsGrow(g, g')
  {
    var ga := TryConnect(g, W.Some(a), W.Some(n), None).0;
    var gb := TryConnect(ga, W.Some(b), W.Some(n), None).0;
    EvolvesTransitive(g, ga, gb);
    ConnectionsGrowTransitive(g, ga, gb);
    gb
  }

  /** `ApplyConnectionsToSubregions` over the split region's list `es`: a connection at right
      angles to the split goes to the half on its side, a connection in the opposite direction
      is tried on both halves, and connections in the split direction are left to the caller. */
  function ApplyConnectionsToSubregions(g: Graph, es: seq<Edge>, a: RegionId, b: RegionId, direction: Direction)
    : (g': Graph)
    requires Wf(g) && a in g.store && b in g.store && InStore(g, es)
    ensures Wf(g') && Evolves(g, g') && ConnectionsGrow(g, g')
    decreases |es|
  {
    if |es| == 0 then g
    else
      var g1 := ApplyConnection(g, es[0], a, b, direction);
      InStoreRest(g, g1, es);
      var g2 := ApplyConnectionsToSubregions(g1, es[1..], a, b, direction);
      EvolvesTransitive(g, g1, g2);
      ConnectionsGrowTransitive(g, g1, g2);
      g2
  }

  /** The rest of a list of connections names regions of a state with the same regions. */
  lemma InStoreRest(g: Graph, g1: Graph, es: seq<Edge>)
    requires InStore(g, es) && |es| > 0 && g1.store.Keys == g.store.Keys
    ensures InStore(g1, es[1..])
  {
    forall i | 0 <= i < |es| - 1 ensures es[1..][i].to in g1.store {
      assert es[1..][i] == es[i + 1];
    }
  }

  /** Every connection at right angles to the split ends up on the half on its side. */
  lemma {:induction false} ApplyRehomesOrthogonal(g: Graph, es: seq<Edge>, a: RegionId, b: RegionId, direction: Direction)
    requires Wf(g) && a in g.store && b in g.store && InStore(g, es)
    ensures forall e :: e in es && IsOrthogonal(e.dir, direction) ==>
      HasEdgeTo(Connections(ApplyConnectionsToSubregions(g, es, a, b, direction), KeepingHalf(e.dir, a, b)), e.to)
    decreases |es|
  {
    if |es| > 0 {
      var g1 := ApplyConnection(g, es[0], a, b, direction);
      ApplyRehomesOrthogonal(g1, es[1..], a, b, direction);
      ApplyStep(g1, ApplyConnectionsToSubregions(g1, es[1..], a, b, direction), es, a, b, direction);
    }
  }

  /** The two halves of `r` as fresh regions joined to each other, before any of `r`'s
      connections are carried over. */
  function AllocHalves(g: Graph, r: RegionId, direction: Direction, coordinate: int)
    : (res: (Graph, RegionId, RegionId))
    requires Wf(g) && r in g.store
    ensures Wf(res.0) && Evolves(g, res.0) && res.0.live == g.live && res.0.nextId == g.nextId + 2
    ensures res.1 == g.nextId && res.2 == g.nextId + 1 && res.1 in res.0.store && res.2 in res.0.store
    ensures (Rectangle(res.0, res.1), Rectangle(res.0, res.2)) == SplitRect(Rectangle(g, r), direction, coordinate)
    ensures !IsRoom(res.0, res.1) && !IsRoom(res.0, res.2)
    ensures Connections(res.0, res.1) == [Edge(SplitSide(direction), res.2)]
    ensures Connections(res.0, res.2) == [Edge(Inverse(SplitSide(direction)), res.1)]
    ensures Connections(res.0, r) == Connections(g, r)
    ensures SymmetricLive(g) ==> Symmetric(res.0, LiveSet(g) + {res.1, res.2})
  {
    var halves := SplitRect(Rectangle(g, r), direction, coordinate);
    var first := Alloc(g, halves.0, false);
    var second := Alloc(first.0, halves.1, false);
    var a, b := first.1, second.1;
    var g2 := JoinHalves(second.0, a, b, SplitSide(direction));
    FreshPairKeepsSymmetry(g, halves.0, halves.1, SplitSide(direction), LiveSet(g));
    EvolvesTransitive(g, first.0, second.0);
    EvolvesTransitive(g, second.0, g2);
    (g2, a, b)
  }

  /** Two regions with no connections yet, each listing the other: `a` sees `b` in `d`, `b`
      sees `a` in `Inverse(d)`. */
  function JoinHalves(g: Graph, a: RegionId, b: RegionId, d: Direction): (g': Graph)
    requires Wf(g) && a in g.store && b in g.store && a != b && d != None
    requires Connections(g, a) == [] && Connections(g, b) == []
    ensures Wf(g') && Evolves(g, g') && g'.live == g.live && g'.nextId == g.nextId
    ensures Connections(g', a) == [Edge(d, b)] && Connections(g', b) == [Edge(Inverse(d), a)]
    ensures SameAttributes(g.store[a], g'.store[a]) && SameAttributes(g.store[b], g'.store[b])
    ensures forall k :: k in g.store && k != a && k != b ==> g'.store[k] == g.store[k]
  {
    Link(g, a, d, b)
  }

  /** `SubdivideRegion`: two new regions cover the halves of `r` split at `coordinate`. */
  function SubdivideRegion(g: Graph, r: RegionId, direction: Direction, coordinate: int)
    : (res: (Graph, RegionId, RegionId))
    requires Wf(g) && r in g.store
    ensures Wf(res.0) && Evolves(g, res.0) && res.0.live == g.live && res.0.nextId == g.nextId + 2
    ensures res.1 == g.nextId && res.2 == g.nextId + 1 && res.1 in res.0.store && res.2 in res.0.store
    ensures (Rectangle(res.0, res.1), Rectangle(res.0, res.2)) == SplitRect(Rectangle(g, r), direction, coordinate)
    ensures !IsRoom(res.0, res.1) && !IsRoom(res.0, res.2)
    ensures SymmetricLive(g) ==> Symmetric(res.0, LiveSet(g) + {res.1, res.2})
  {
    var halves := AllocHalves(g, r, direction, coordinate);
    var g1 := halves.0;
    ConnectionsInStore(g, g1, r);
    var g2 := ApplyConnectionsToSubregions(g1, Connections(g, r), halves.1, halves.2, direction);
    ApplyConnectionsKeepSymmetry(g1, Connections(g, r), halves.1, halves.2, direction, LiveSet(g) + {halves.1, halves.2});
    EvolvesTransitive(g, g1, g2);
    assert SameAttributes(g1.store[halves.1], g2.store[halves.1]);
    assert SameAttributes(g1.store[halves.2], g2.store[halves.2]);
    (g2, halves.1, halves.2)
  }

  /** The halves list each other first, on the side where they meet. */
  lemma SubdivideRegionMeets(g: Graph, r: RegionId, direction: Direction, coordinate: int)
    requires Wf(g) && r in g.store
    ensures var s := SubdivideRegion(g, r, direction, coordinate);
      && |Connections(s.0, s.1)| > 0 && Connections(s.0, s.1)[0] == Edge(SplitSide(direction), s.2)
      && |Connections(s.0, s.2)| > 0 && Connections(s.0, s.2)[0] == Edge(Inverse(SplitSide(direction)), s.1)
  {
    var (g1, a, b) := AllocHalves(g, r, direction, coordinate);
    ApplyRehomesOrthogonal(g1, Connections(g, r), a, b, direction);
  }

  /** Every connection of `r` at right angles to the split is carried over to the half on its
      side. */
  lemma SubdivideRegionConnects(g: Graph, r: RegionId, direction: Direction, coordinate: int)
    requires Wf(g) && r in g.store
    ensures var s := SubdivideRegion(g, r, direction, coordinate);
      forall e :: e in Connections(g, r) && IsOrthogonal(e.dir, direction) ==>
        HasEdgeTo(Connections(s.0, KeepingHalf(e.dir, s.1, s.2)), e.to)
  {
    var (g1, a, b) := AllocHalves(g, r, direction, coordinate);
    ApplyRehomesOrthogonal(g1, Connections(g, r), a, b, direction);
  }

  // ---------------------------------------------------------------------------
  // Propagating a split along a direction

  /** A step that keeps `allRegions` as it is extends the graph. */
  lemma SameListExtends(g: Graph, g': Graph)
    requires Wf(g') && Evolves(g, g') && g'.live == g.live
    ensures Extends(g, g')
  {
  }

  /** `SubdivideRegionsInDirectionAlongCoordinate`: `r` leaves `allRegions`, its halves join
      it, and every region `r` lists in `direction` is split along the same coordinate in turn
      (when it is not a room and the coordinate falls inside it) or else tried against both
      halves. `fuel` bounds the depth of the propagation. */
  function SubdivideAlong(g: Graph, r: RegionId, direction: Direction, coordinate: int, fuel: nat)
    : (res: (Graph, RegionId, RegionId))
    requires Wf(g) && r in g.store && !IsRoom(g, r)
    ensures Extends(g, res.0) && r !in res.0.live
    ensures res.1 in res.0.store && res.2 in res.0.store && res.1 >= g.nextId && res.2 >= g.nextId
    ensures (Rectangle(res.0, res.1), Rectangle(res.0, res.2)) == SplitRect(Rectangle(g, r), direction, coordinate)
    ensures SymmetricLive(g) ==> SymmetricLive(res.0)
    decreases fuel, 2, 0
  {
    var split := SplitAndList(g, r, direction, coordinate);
    var g4 := Rehome(split.0, Connections(split.0, r), split.1, split.2, direction, coordinate, fuel);
    ExtendsTransitive(g, split.0, g4);
    (g4, split.1, split.2)
  }

  /** The part of `SubdivideRegionsInDirectionAlongCoordinate` before its loop: `r` is replaced
      in `allRegions` by its two halves. */
  function SplitAndList(g: Graph, r: RegionId, direction: Direction, coordinate: int)
    : (res: (Graph, RegionId, RegionId))
    requires Wf(g) && r in g.store && !IsRoom(g, r)
    ensures Extends(g, res.0) && r !in res.0.live && r in res.0.store
    ensures InStore(res.0, Connections(res.0, r))
    ensures res.1 in res.0.store && res.2 in res.0.store && res.1 >= g.nextId && res.2 >= g.nextId
    ensures res.1 in res.0.live && res.2 in res.0.live
    ensures (Rectangle(res.0, res.1), Rectangle(res.0, res.2)) == SplitRect(Rectangle(g, r), direction, coordinate)
    ensures SymmetricLive(g) ==> SymmetricLive(res.0)
  {
    var g1 := RemoveRegion(g, r);
    RemoveRegionKeepsSymmetricLive(g, r);
    var h := SubdivideRegion(g1, r, direction, coordinate).0;
    var a := SubdivideRegion(g1, r, direction, coordinate).1;
    var b := SubdivideRegion(g1, r, direction, coordinate).2;
    SameListExtends(g1, h);
    ExtendsTransitive(g, g1, h);
    var g3 := ListHalves(g, h, a, b);
    ChainSymmetry(g, g1, h, g3, a, b);
    ConnectionsInStore(h, g3, r);
    (g3, a, b)
  }

  /** `AddRegionToList` for both halves, which are newer than `g0`. */
  function ListHalves(g0: Graph, g: Graph, a: RegionId, b: RegionId): (g': Graph)
    requires Extends(g0, g) && a in g.store && b in g.store && a != b
    requires a >= g0.nextId && b >= g0.nextId && a !in g.live && b !in g.live
    ensures Extends(g0, g') && g'.store == g.store && a in g'.live && b in g'.live
    ensures forall x :: x in g'.live <==> x in g.live || x == a || x == b
    ensures Symmetric(g, LiveSet(g) + {a, b}) ==> SymmetricLive(g')
  {
    var g1 := AddToList(g, a);
    AppendFreshExtends(g0, g, g1, a);
    var g2 := AddToList(g1, b);
    AppendFreshExtends(g0, g1, g2, b);
    ListedHalvesSymmetric(g, g2, a, b);
    g2
  }

  /** Appending a region created after `g0` to `allRegions` keeps extending `g0`. */
  lemma AppendFreshExtends(g0: Graph, g: Graph, g': Graph, x: RegionId)
    requires Extends(g0, g) && Wf(g') && Evolves(g, g') && g'.live == g.live + [x] && x >= g0.nextId
    ensures Extends(g0, g')
  {
    EvolvesTransitive(g0, g, g');
  }

  /** The loop of `SubdivideRegionsInDirectionAlongCoordinate` over the split region's list. */
  function Rehome(g: Graph, es: seq<Edge>, a: RegionId, b: RegionId, direction: Direction, coordinate: int, fuel: nat)
    : (g': Graph)
    requires Wf(g) && a in g.store && b in g.store && InStore(g, es)
    ensures Extends(g, g')
    ensures SymmetricLive(g) ==> SymmetricLive(g')
    decreases fuel, 1, |es|
  {
    if |es| == 0 then g
    else
      var g1 := RehomeEdge(g, es[0], a, b, direction, coordinate, fuel);
      ConnectionsInStoreTail(g, g1, es);
      var g2 := Rehome(g1, es[1..], a, b, direction, coordinate, fuel);
      ExtendsTransitive(g, g1, g2);
      g2
  }

  /** One iteration of that loop for the connection `e`. */
  function RehomeEdge(g: Graph, e: Edge, a: RegionId, b: RegionId, direction: Direction, coordinate: int, fuel: nat)
    : (g': Graph)
    requires Wf(g) && a in g.store && b in g.store && e.to in g.store
    ensures Extends(g, g')
    ensures SymmetricLive(g) ==> SymmetricLive(g')
    decreases fuel, 0, 0
  {
    if e.dir != direction then g
    else if fuel > 0 && !IsRoom(g, e.to) && ShouldSubdivide(Rectangle(g, e.to), direction, coordinate) then
      var other := SubdivideAlong(g, e.to, direction, coordinate, fuel - 1);
      var h := other.0;
      var h1 := Connect(h, a, other.1, direction);
      var h2 := Connect(h1, b, other.2, direction);
      ConnectPairKeepsSymmetry(h, a, other.1, b, other.2, direction);
      SameListExtends(h, h1);
      SameListExtends(h1, h2);
      ExtendsTransitive(g, h, h1);
      ExtendsTransitive(g, h1, h2);
      h2
    else
      var h1 := TryConnect(g, W.Some(a), W.Some(e.to), None).0;
      var h2 := TryConnect(h1, W.Some(b), W.Some(e.to), None).0;
      TryConnectKeepsSymmetricLive(g, a, e.to, None);
      TryConnectKeepsSymmetricLive(h1, b, e.to, None);
      SameListExtends(g, h1);
      SameListExtends(h1, h2);
      ExtendsTransitive(g, h1, h2);
      h2
  }

  /** `SubdivideRegionsInDirectionAlongCoordinate` leaves the halves ordinary regions. */
  lemma SubdivideAlongMakesRegions(g: Graph, r: RegionId, direction: Direction, coordinate: int, fuel: nat)
    requires Wf(g) && r in g.store && !IsRoom(g, r)
    ensures var res := SubdivideAlong(g, r, direction, coordinate, fuel);
      !IsRoom(res.0, res.1) && !IsRoom(res.0, res.2)
  {
    var split := SplitAndList(g, r, direction, coordinate);
    assert !IsRoom(split.0, split.1) && !IsRoom(split.0, split.2);
  }

  // ---------------------------------------------------------------------------
  // Matching the divisions of neighbouring regions

  /** `x` put into its place in an ascending list of distinct values, unless already there. */
  function InsertAscending(x: int, s: seq<int>): (r: seq<int>)
    requires StrictlyIncreasing(s)
    ensures StrictlyIncreasing(r)
    ensures forall y :: y in r <==> y in s || y == x
    decreases |s|
  {
    if |s| == 0 then [x]
    else if x < s[0] then [x] + s
    else if x == s[0] then s
    else
      var rest := InsertAscending(x, s[1..]);
      assert forall y :: y in s[1..] ==> s[0] < y;
      assert forall i :: 0 <= i < |rest| ==> rest[i] in rest;
      [s[0]] + rest
  }

  /** The rectangles of the regions a list names in `direction`, in list order. */
  function RectsInDirection(g: Graph, es: seq<Edge>, direction: Direction): (rs: seq<Rect>)
    requires InStore(g, es)
    ensures forall q :: q in rs <==> exists i :: 0 <= i < |es| && es[i].dir == direction && Rectangle(g, es[i].to) == q
    decreases |es|
  {
    if |es| == 0 then []
    else
      var rest := RectsInDirection(g, es[1..], direction);
      assert forall i :: 0 <= i < |es| - 1 ==> es[1..][i] == es[i + 1];
      if es[0].dir == direction then [Rectangle(g, es[0].to)] + rest else rest
  }

  /** The keys of `coordinatesToSubdivide` after `FindCoordinatesToSubdivideAlong`, sorted
      ascending as `SubdivideRegionToMatchAdjacentRegionsInDirection` enumerates them. */
  function CutCoordinates(r: Rect, direction: Direction, adjacent: seq<Rect>): (cs: seq<int>)
    ensures StrictlyIncreasing(cs)
    ensures forall c :: c in cs <==> exists q :: q in adjacent && CutFor(r, direction, q) == W.Some(c)
    decreases |adjacent|
  {
    if |adjacent| == 0 then []
    else
      var init := adjacent[..|adjacent| - 1];
      var last := adjacent[|adjacent| - 1];
      var cs := CutCoordinates(r, direction, init);
      assert forall q :: q in adjacent <==> q in init || q == last;
      match CutFor(r, direction, last)
      case Some(c) => InsertAscending(c, cs)
      case None => cs
  }

  /** Every coordinate recorded splits the region into two non-empty parts. */
  lemma CutCoordinatesInside(r: Rect, direction: Direction, adjacent: seq<Rect>)
    ensures forall c :: c in CutCoordinates(r, direction, adjacent) ==> ShouldSubdivide(r, direction, c)
  {
    forall c | c in CutCoordinates(r, direction, adjacent)
      ensures ShouldSubdivide(r, direction, c)
    {
      var q :| q in adjacent && CutFor(r, direction, q) == W.Some(c);
      CutForInside(r, direction, q);
    }
  }

  /** The loop of `SubdivideRegionToMatchAdjacentRegionsInDirection(region, direction, ...)`:
      split at each coordinate in turn and continue with the second half. The result also
      lists the regions left covering the strips, in order. */
  function SplitAtEach(g: Graph, r: RegionId, direction: Direction, cs: seq<int>, fuel: nat)
    : (res: (Graph, seq<RegionId>))
    requires Wf(g) && r in g.store && !IsRoom(g, r)
    ensures Extends(g, res.0) && |res.1| == |cs| + 1 && AllIn(res.0, res.1)
    ensures SymmetricLive(g) ==> SymmetricLive(res.0)
    decreases |cs|
  {
    if |cs| == 0 then (g, [r])
    else
      var split := SubdivideAlong(g, r, direction, cs[0], fuel);
      SubdivideAlongMakesRegions(g, r, direction, cs[0], fuel);
      var rest := SplitAtEach(split.0, split.2, direction, cs[1..], fuel);
      ExtendsTransitive(g, split.0, rest.0);
      AllInCons(split.0, rest.0, split.1, rest.1);
      (rest.0, [split.1] + rest.1)
  }

  /** The regions `SplitAtEach` leaves cover the strips of `r` cut at `cs`, in order. */
  lemma {:induction false} SplitAtEachCoversStrips(g: Graph, r: RegionId, direction: Direction, cs: seq<int>, fuel: nat)
    requires Wf(g) && r in g.store && !IsRoom(g, r)
    ensures forall i :: 0 <= i < |SplitAtEach(g, r, direction, cs, fuel).1| ==>
      Rectangle(SplitAtEach(g, r, direction, cs, fuel).0, SplitAtEach(g, r, direction, cs, fuel).1[i])
        == Strips(Rectangle(g, r), direction, cs)[i]
    decreases |cs|
  {
    if |cs| > 0 {
      var split := SubdivideAlong(g, r, direction, cs[0], fuel);
      SubdivideAlongMakesRegions(g, r, direction, cs[0], fuel);
      SplitAtEachCoversStrips(split.0, split.2, direction, cs[1..], fuel);
      var rest := SplitAtEach(split.0, split.2, direction, cs[1..], fuel);
      assert Strips(Rectangle(g, r), direction, cs)
        == [Rectangle(split.0, split.1)] + Strips(Rectangle(split.0, split.2), direction, cs[1..]);
      var tail := Strips(Rectangle(split.0, split.2), direction, cs[1..]);
      ConsCovers(split.0, rest.0, split.1, rest.1, tail);
    }
  }

  /** Prepending a region whose rectangle is `Rectangle(g, first)` to a list covering `tail`. */
  lemma ConsCovers(g: Graph, g': Graph, first: RegionId, rest: seq<RegionId>, tail: seq<Rect>)
    requires first in g.store && Evolves(g, g') && |rest| == |tail|
    requires forall i :: 0 <= i < |rest| ==> rest[i] in g'.store && Rectangle(g', rest[i]) == tail[i]
    ensures forall i :: 0 <= i < |rest| + 1 ==>
      ([first] + rest)[i] in g'.store && Rectangle(g', ([first] + rest)[i]) == ([Rectangle(g, first)] + tail)[i]
  {
  }

  /** The sorted coordinates `SubdivideRegionToMatchAdjacentRegionsInDirection` cuts `r` at. */
  function MatchCuts(g: Graph, r: RegionId, direction: Direction): (cs: seq<int>)
    requires Wf(g) && r in g.store
    ensures StrictlyIncreasing(cs)
    ensures forall c :: c in cs ==> ShouldSubdivide(Rectangle(g, r), direction, c)
  {
    ConnectionsInStore(g, g, r);
    var adjacent := RectsInDirection(g, Connections(g, r), direction);
    CutCoordinatesInside(Rectangle(g, r), direction, adjacent);
    CutCoordinates(Rectangle(g, r), direction, adjacent)
  }

  /** `SubdivideRegionToMatchAdjacentRegionsInDirection(region, direction, allRegions)`:
      `r` is cut at every edge of a region it lists in `direction` that falls strictly inside
      it. */
  function MatchDivisions(g: Graph, r: RegionId, direction: Direction, fuel: nat): (g': Graph)
    requires Wf(g) && r in g.store && !IsRoom(g, r)
    ensures Extends(g, g')
    ensures SymmetricLive(g) ==> SymmetricLive(g')
  {
    SplitAtEach(g, r, direction, MatchCuts(g, r, direction), fuel).0
  }

  /** The regions `MatchDivisions` leaves covering `r`, in order across the cut direction. */
  function MatchPieces(g: Graph, r: RegionId, direction: Direction, fuel: nat): (pieces: seq<RegionId>)
    requires Wf(g) && r in g.store && !IsRoom(g, r)
    ensures |pieces| == |MatchCuts(g, r, direction)| + 1
    ensures AllIn(MatchDivisions(g, r, direction, fuel), pieces)
  {
    SplitAtEach(g, r, direction, MatchCuts(g, r, direction), fuel).1
  }

  /** The regions `ps` of `g` are non-empty, inside `box`, and each borders the next on the
      split side. */
  predicate StripRegions(g: Graph, ps: seq<RegionId>, box: Rect, direction: Direction)
    requires AllIn(g, ps)
  {
    && (forall i :: 0 <= i < |ps| ==> Positive(Rectangle(g, ps[i])) && Encloses(box, Rectangle(g, ps[i])))
    && (forall i :: 0 <= i < |ps| - 1 ==>
          TryGetAdjacency(Rectangle(g, ps[i]), Rectangle(g, ps[i + 1])) == SplitSide(direction))
  }

  /** Regions whose rectangles are the strips of `box` are non-empty, inside it, and each borders
      the next on the split side. */
  lemma PiecesAreStrips(g: Graph, ps: seq<RegionId>, box: Rect, direction: Direction, cs: seq<int>)
    requires Positive(box) && StrictlyIncreasing(cs)
    requires forall i :: 0 <= i < |cs| ==> ShouldSubdivide(box, direction, cs[i])
    requires |ps| == |cs| + 1 && AllIn(g, ps)
    requires forall i :: 0 <= i < |ps| ==> Rectangle(g, ps[i]) == Strips(box, direction, cs)[i]
    ensures StripRegions(g, ps, box, direction)
  {
    StripsLaws(box, direction, cs);
  }

  /** The cuts `MatchDivisions` makes leave non-empty strips of `r`, each inside `r` and
      bordering the next on the split side. */
  lemma MatchDivisionsYieldsStrips(g: Graph, r: RegionId, direction: Direction, fuel: nat)
    requires Wf(g) && r in g.store && !IsRoom(g, r) && Positive(Rectangle(g, r))
    ensures StripRegions(MatchDivisions(g, r, direction, fuel), MatchPieces(g, r, direction, fuel), Rectangle(g, r), direction)
  {
    var cs := MatchCuts(g, r, direction);
    var box := Rectangle(g, r);
    assert forall i :: 0 <= i < |cs| ==> ShouldSubdivide(box, direction, cs[i]) by {
      assert forall i :: 0 <= i < |cs| ==> cs[i] in cs;
    }
    var h := SplitAtEach(g, r, direction, cs, fuel).0;
    var ids := SplitAtEach(g, r, direction, cs, fuel).1;
    assert MatchDivisions(g, r, direction, fuel) == h && MatchPieces(g, r, direction, fuel) == ids;
    SplitAtEachCoversStrips(g, r, direction, cs, fuel);
    PiecesAreStrips(h, ids, box, direction, cs);
  }

  /** One iteration of `SubdivideRegionToMatchAdjacentRegionsInDirection(region,
      adjacentRegions, direction, ...)`: `r` is cut on the line between `a` and `b`, and `a`
      and `b` are connected to the pieces facing them. */
  function MatchPair(g: Graph, r: RegionId, a: RegionId, b: RegionId, direction: Direction, fuel: nat)
    : (res: (Graph, RegionId, RegionId))
    requires Wf(g) && r in g.store && !IsRoom(g, r) && a in g.store && b in g.store
    ensures Extends(g, res.0) && res.1 in res.0.store && res.2 in res.0.store && !IsRoom(res.0, res.2)
    ensures (Rectangle(res.0, res.1), Rectangle(res.0, res.2))
      == SplitRect(Rectangle(g, r), direction, MatchCoordinate(Rectangle(g, a), Rectangle(g, b), direction))
    ensures SymmetricLive(g) ==> SymmetricLive(res.0)
  {
    var coordinate := MatchCoordinate(Rectangle(g, a), Rectangle(g, b), direction);
    var split := SubdivideAlong(g, r, direction, coordinate, fuel);
    SubdivideAlongMakesRegions(g, r, direction, coordinate, fuel);
    var g1 := Connect(split.0, a, split.1, direction);
    var g2 := Connect(g1, b, split.2, direction);
    ConnectPairKeepsSymmetry(split.0, a, split.1, b, split.2, direction);
    SameListExtends(split.0, g1);
    SameListExtends(g1, g2);
    ExtendsTransitive(g, split.0, g1);
    ExtendsTransitive(g, g1, g2);
    (g2, split.1, split.2)
  }

  /** `SubdivideRegionToMatchAdjacentRegionsInDirection(region, adjacentRegions, direction, ...)`:
      `r` is cut between each consecutive pair of `adjacent` regions, which lie across
      `direction` in order, and each pair is connected to the pieces facing it. */
  function MatchNeighbours(g: Graph, r: RegionId, adjacent: seq<RegionId>, direction: Direction, fuel: nat)
    : (g': Graph)
    requires Wf(g) && r in g.store && !IsRoom(g, r) && AllIn(g, adjacent)
    ensures Extends(g, g')
    ensures SymmetricLive(g) ==> SymmetricLive(g')
    decreases |adjacent|
  {
    if |adjacent| < 2 then g
    else
      var step := MatchPair(g, r, adjacent[0], adjacent[1], direction, fuel);
      AllInTail(g, step.0, adjacent);
      var g' := MatchNeighbours(step.0, step.2, adjacent[1..], direction, fuel);
      ExtendsTransitive(g, step.0, g');
      g'
  }

  // ---------------------------------------------------------------------------
  // Directional symmetry

  /** Carrying connections over to the halves keeps directional symmetry among any regions it
      holds for. */
  lemma {:induction false} ApplyConnectionsKeepSymmetry(g: Graph, es: seq<Edge>, a: RegionId, b: RegionId,
                                                        direction: Direction, s: set<RegionId>)
    requires Wf(g) && a in g.store && b in g.store && InStore(g, es)
    requires s <= g.store.Keys
    ensures Symmetric(g, s) ==> Symmetric(ApplyConnectionsToSubregions(g, es, a, b, direction), s)
    decreases |es|
  {
    if |es| > 0 && Symmetric(g, s) {
      var e := es[0];
      var g1 := ApplyConnection(g, e, a, b, direction);
      if IsOrthogonal(e.dir, direction) {
        ConnectKeepsSymmetry(g, KeepingHalf(e.dir, a, b), e.to, e.dir, s);
      } else if e.dir != direction {
        var ga := TryConnect(g, W.Some(a), W.Some(e.to), None).0;
        TryConnectKeepsSymmetry(g, a, e.to, None, s);
        TryConnectKeepsSymmetry(ga, b, e.to, None, s);
      }
      InStoreRest(g, g1, es);
      ApplyConnectionsKeepSymmetry(g1, es[1..], a, b, direction, s);
    }
  }

  /** Listing `a` and `b` makes `allRegions` the set the symmetry was known for. */
  lemma ListedHalvesSymmetric(g: Graph, g': Graph, a: RegionId, b: RegionId)
    requires Wf(g) && Wf(g') && g'.store == g.store && a in g.store && b in g.store
    requires forall x :: x in g'.live <==> x in g.live || x == a || x == b
    ensures Symmetric(g, LiveSet(g) + {a, b}) ==> SymmetricLive(g')
  {
    assert LiveSet(g') == LiveSet(g) + {a, b};
    if Symmetric(g, LiveSet(g) + {a, b}) {
      SymmetricSameStore(g, g', LiveSet(g'));
    }
  }

  /** The three steps of `SplitAndList` chained: each keeps the symmetry the next one needs. */
  lemma ChainSymmetry(g: Graph, g1: Graph, h: Graph, g3: Graph, a: RegionId, b: RegionId)
    requires Wf(g) && Wf(g1) && Wf(h) && Wf(g3) && h.live == g1.live && a in h.store && b in h.store
    requires SymmetricLive(g) ==> SymmetricLive(g1)
    requires SymmetricLive(g1) ==> Symmetric(h, LiveSet(g1) + {a, b})
    requires Symmetric(h, LiveSet(h) + {a, b}) ==> SymmetricLive(g3)
    ensures SymmetricLive(g) ==> SymmetricLive(g3)
  {
    assert LiveSet(h) == LiveSet(g1);
  }

  /** Two fresh regions linked only to each other are symmetric with every region. */
  lemma FreshPairKeepsSymmetry(g: Graph, rect0: Rect, rect1: Rect, d: Direction, s: set<RegionId>)
    requires Wf(g) && d != None && s <= g.store.Keys
    ensures var first := Alloc(g, rect0, false);
      var second := Alloc(first.0, rect1, false);
      Symmetric(g, s) ==> Symmetric(Link(second.0, first.1, d, second.1), s + {first.1, second.1})
  {
    if Symmetric(g, s) {
      var first := Alloc(g, rect0, false);
      AllocKeepsSymmetry(g, rect0, false, s);
      var second := Alloc(first.0, rect1, false);
      AllocKeepsSymmetry(first.0, rect1, false, s + {first.1});
      assert s + {first.1} + {second.1} == s + {first.1, second.1};
      LinkKeepsSymmetry(second.0, first.1, d, second.1, s + {first.1, second.1});
    }
  }

  /** Connecting `a` to `x` and then `b` to `y` keeps `allRegions` directionally symmetric. */
  lemma ConnectPairKeepsSymmetry(g: Graph, a: RegionId, x: RegionId, b: RegionId, y: RegionId, direction: Direction)
    requires Wf(g) && a in g.store && x in g.store && b in g.store && y in g.store
    ensures SymmetricLive(g) ==> SymmetricLive(Connect(Connect(g, a, x, direction), b, y, direction))
  {
    ConnectKeepsSymmetricLive(g, a, x, direction);
    ConnectKeepsSymmetricLive(Connect(g, a, x, direction), b, y, direction);
  }
}
