/** `DisableSmallRegions`: after a room is placed, a region whose surroundings are too small to
    hold a room is disabled, and the disabling spreads to neighbours that are left without an
    enabled ordinary neighbour. Only `Enabled` flags change. */
module Disabling {
  import opened Grid
  import opened Rects
  import opened RegionGraph
  import opened Search

  /** The ordinary regions that are still enabled; the recursion stops because it shrinks. */
  function EnabledSet(g: Graph): set<RegionId> {
    set k | k in g.store && !g.store[k].isRoom && g.store[k].enabled
  }

  /** `g'` differs from `g` at most in flags turned from enabled to disabled. */
  predicate OnlyDisables(g: Graph, g': Graph) {
    && g'.store.Keys == g.store.Keys && g'.live == g.live && g'.nextId == g.nextId
    && (forall k :: k in g.store ==>
          && g'.store[k].rect == g.store[k].rect
          && g'.store[k].isRoom == g.store[k].isRoom
          && g'.store[k].connections == g.store[k].connections
          && (g'.store[k].enabled ==> g.store[k].enabled))
  }

  lemma OnlyDisablesTransitive(g: Graph, g': Graph, g'': Graph)
    requires OnlyDisables(g, g') && OnlyDisables(g', g'')
    ensures OnlyDisables(g, g'')
  {
  }

  /** Flag changes keep the graph well formed and extend it. */
  lemma OnlyDisablesExtends(g: Graph, g': Graph)
    requires Wf(g) && OnlyDisables(g, g')
    ensures Extends(g, g')
  {
    forall k | k in g'.store ensures k < g'.nextId && EdgesWf(g'.store[k].connections, g'.store.Keys) {
      assert EdgesWf(g.store[k].connections, g.store.Keys);
    }
  }

  /** Flag changes leave every connection list and `allRegions` as they were, so they keep
      directional symmetry. */
  lemma OnlyDisablesKeepsSymmetry(g: Graph, g': Graph)
    requires Wf(g) && OnlyDisables(g, g')
    ensures Wf(g') && (SymmetricLive(g) ==> SymmetricLive(g'))
  {
    OnlyDisablesExtends(g, g');
    if SymmetricLive(g) {
      assert LiveSet(g') == LiveSet(g);
      forall a, b | a in LiveSet(g') && b in LiveSet(g') && a != b ensures Mirrored(g', a, b) {
        assert Mirrored(g, a, b);
      }
    }
  }

  /** Connections naming regions of `g` name regions of a state with the same regions. */
  lemma SameKeysInStore(g: Graph, g': Graph, es: seq<Edge>)
    requires InStore(g, es) && g'.store.Keys == g.store.Keys
    ensures InStore(g', es)
  {
  }

  /** Fewer enabled ordinary regions: the enabled set can only shrink. */
  lemma OnlyDisablesShrinks(g: Graph, g': Graph)
    requires OnlyDisables(g, g')
    ensures EnabledSet(g') <= EnabledSet(g) && |EnabledSet(g')| <= |EnabledSet(g)|
  {
    SubsetSize(EnabledSet(g'), EnabledSet(g));
  }


  /** Disabling an enabled ordinary region removes it from the enabled set. */
  lemma DisablingShrinks(g: Graph, k: RegionId)
    requires Wf(g) && k in g.store && !IsRoom(g, k) && Enabled(g, k)
    ensures EnabledSet(SetEnabled(g, k, false)) == EnabledSet(g) - {k}
    ensures |EnabledSet(SetEnabled(g, k, false))| < |EnabledSet(g)|
  {
    assert k in EnabledSet(g);
  }

  /** `testRegions`: the region itself, then the regions found in `direction`, counter-clockwise
      and clockwise of it. */
  function TestRegions(g: Graph, r: RegionId, direction: Direction, fuel: nat): (ids: seq<RegionId>)
    requires r in g.store
    ensures |ids| > 0 && ids[0] == r && AllIn(g, ids)
  {
    var ahead := FindRegionsInDirection(g, r, direction, fuel);
    var ccw := FindRegionsInDirection(g, r, Rotate(direction, CounterClockwise), fuel);
    var cw := FindRegionsInDirection(g, r, Rotate(direction, Clockwise), fuel);
    var ids := [r] + ahead + ccw + cw;
    assert forall k :: 0 <= k < |ids| ==> ids[k] == r || ids[k] in ahead || ids[k] in ccw || ids[k] in cw;
    ids
  }

  /** `hasEnoughSpace`: the bounding box of the test regions fits a room of the minimum size in
      both dimensions. */
  predicate HasEnoughSpace(g: Graph, r: RegionId, direction: Direction, minRoomSize: int, fuel: nat)
    requires r in g.store
  {
    var box := AggregateBox(g, TestRegions(g, r, direction, fuel));
    box.width >= minRoomSize && box.depth >= minRoomSize
  }

  /** `connectedRegion.connections.Any(entry => !(entry.Item2 is Room) && entry.Item2.Enabled)`. */
  function AnyOpen(g: Graph, es: seq<Edge>): (b: bool)
    ensures b <==> exists i :: 0 <= i < |es| && es[i].to in g.store && !IsRoom(g, es[i].to) && Enabled(g, es[i].to)
    decreases |es|
  {
    if |es| == 0 then false
    else
      assert forall i :: 0 < i < |es| ==> es[i] == es[1..][i - 1];
      (es[0].to in g.store && !IsRoom(g, es[0].to) && Enabled(g, es[0].to)) || AnyOpen(g, es[1..])
  }

  /** An ordinary region left without an enabled ordinary neighbour: the `Any` of the cascade is
      false for it. */
  predicate Closed(g: Graph, x: RegionId) {
    x in g.store && !IsRoom(g, x) && !AnyOpen(g, Connections(g, x))
  }

  /** Flags only ever turn off, so a region left without an open neighbour stays so. */
  lemma ClosedStaysClosed(g: Graph, g': Graph, x: RegionId)
    requires OnlyDisables(g, g')
    ensures Closed(g, x) ==> Closed(g', x)
  {
    if Closed(g, x) {
      var es := Connections(g, x);
      assert Connections(g', x) == es;
      forall j | 0 <= j < |es| && es[j].to in g'.store && !IsRoom(g', es[j].to)
        ensures !Enabled(g', es[j].to)
      {
        assert !Enabled(g, es[j].to);
      }
    }
  }

  /** `DisableSmallRegions(region, direction)`: the region keeps its `Enabled` flag exactly when
      its test regions leave enough space, and nothing but flags changes. */
  function DisableSmall(g: Graph, r: RegionId, direction: Direction, minRoomSize: int, fuel: nat): (g': Graph)
    requires Wf(g) && r in g.store && !IsRoom(g, r) && Enabled(g, r)
    ensures OnlyDisables(g, g') && Extends(g, g')
    ensures Enabled(g', r) <==> HasEnoughSpace(g, r, direction, minRoomSize, fuel)
    decreases |EnabledSet(g)|, 0
  {
    if HasEnoughSpace(g, r, direction, minRoomSize, fuel) then
      var g1 := SetEnabled(g, r, true);
      assert g1 == g;
      OnlyDisablesExtends(g, g1);
      g1
    else
      var g1 := SetEnabled(g, r, false);
      DisablingShrinks(g, r);
      OnlyDisablesExtends(g, g1);
      var g2 := Cascade(g1, Connections(g1, r), 0, minRoomSize, fuel);
      OnlyDisablesTransitive(g, g1, g2);
      OnlyDisablesExtends(g, g2);
      g2
  }

  /** The loop of `DisableSmallRegions` over the disabled region's list `es` from position `i`:
      an enabled ordinary neighbour stays enabled only while it has an enabled ordinary neighbour
      of its own, and then is checked in turn from the direction it lies in. Every listed region
      that was already left without an enabled ordinary neighbour ends disabled. */
  function Cascade(g: Graph, es: seq<Edge>, i: nat, minRoomSize: int, fuel: nat): (g': Graph)
    requires Wf(g) && InStore(g, es) && i <= |es|
    ensures OnlyDisables(g, g')
    ensures forall k :: i <= k < |es| && Closed(g, es[k].to) ==> !Enabled(g', es[k].to)
    decreases |EnabledSet(g)|, 1 + |es| - i
  {
    if i == |es| then g
    else
      var e := es[i];
      if !IsRoom(g, e.to) && Enabled(g, e.to) then
        var open := AnyOpen(g, Connections(g, e.to));
        var g1 := SetEnabled(g, e.to, open);
        if open then
          assert g1 == g;
          var g2 := DisableSmall(g1, e.to, e.dir, minRoomSize, fuel);
          OnlyDisablesShrinks(g1, g2);
          SameKeysInStore(g, g2, es);
          var g3 := Cascade(g2, es, i + 1, minRoomSize, fuel);
          OnlyDisablesTransitive(g, g2, g3);
          CascadeStep(g, g2, g3, es, i);
          g3
        else
          DisablingShrinks(g, e.to);
          OnlyDisablesExtends(g, g1);
          SameKeysInStore(g, g1, es);
          assert OnlyDisables(g, g1);
          var g3 := Cascade(g1, es, i + 1, minRoomSize, fuel);
          OnlyDisablesTransitive(g, g1, g3);
          CascadeStep(g, g1, g3, es, i);
          g3
      else
        var g3 := Cascade(g, es, i + 1, minRoomSize, fuel);
        CascadeStep(g, g, g3, es, i);
        g3
  }

  /** One turn of the cascade: if position `i` is settled in `h` and the rest of the list is
      settled from `h` on, the list is settled from `i` on. */
  lemma CascadeStep(g: Graph, h: Graph, g': Graph, es: seq<Edge>, i: nat)
    requires OnlyDisables(g, h) && OnlyDisables(h, g') && i < |es|
    requires Closed(g, es[i].to) ==> !Enabled(h, es[i].to)
    requires forall k :: i + 1 <= k < |es| && Closed(h, es[k].to) ==> !Enabled(g', es[k].to)
    ensures forall k :: i <= k < |es| && Closed(g, es[k].to) ==> !Enabled(g', es[k].to)
  {
    forall k | i <= k < |es| && Closed(g, es[k].to) ensures !Enabled(g', es[k].to) {
      if k > i {
        ClosedStaysClosed(g, h, es[k].to);
      }
    }
  }
}
