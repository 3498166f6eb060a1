/** The searches `LevelBuilder` runs over the region graph before it places or merges anything:
    `DoesRegionHaveAnyRoomsInDirection`, `FindRegionsInDirection` and `FindOrthogonalRegions`.
    Each follows connections in one direction; `fuel` bounds how deep the recursion goes. */
module Search {
  import opened Grid
  import opened Rects
  import opened RegionGraph
  import W = Wrappers

  // ---------------------------------------------------------------------------
  // Chains of regions

  /** `p` is a chain stepping `direction`-wise: `es` reaches its first region in `direction`,
      and every later region lies in `direction` of the one before it. */
  ghost predicate ChainAhead(g: Graph, es: seq<Edge>, direction: Direction, p: seq<RegionId>) {
    && |p| > 0
    && Edge(direction, p[0]) in es
    && (forall k :: 0 <= k < |p| ==> p[k] in g.store)
    && (forall k :: 0 < k < |p| ==> Edge(direction, p[k]) in g.store[p[k - 1]].connections)
  }

  /** Every region of the chain is an enabled ordinary region. */
  ghost predicate Open(g: Graph, p: seq<RegionId>)
    requires forall k :: 0 <= k < |p| ==> p[k] in g.store
  {
    forall k :: 0 <= k < |p| ==> !IsRoom(g, p[k]) && Enabled(g, p[k])
  }

  /** Prefixing a region whose list leads to a chain gives a chain from any list reaching it. */
  lemma ChainCons(g: Graph, es: seq<Edge>, direction: Direction, r: RegionId, p: seq<RegionId>)
    requires r in g.store && Edge(direction, r) in es && ChainAhead(g, Connections(g, r), direction, p)
    ensures ChainAhead(g, es, direction, [r] + p)
  {
    var q := [r] + p;
    forall k | 0 < k < |q|
      ensures Edge(direction, q[k]) in g.store[q[k - 1]].connections
    {
      assert q[k] == p[k - 1];
      if k > 1 {
        assert q[k - 1] == p[k - 2];
      }
    }
  }

  /** Dropping the first region of a chain longer than one leaves a chain from that region. */
  lemma ChainTail(g: Graph, es: seq<Edge>, direction: Direction, p: seq<RegionId>)
    requires ChainAhead(g, es, direction, p) && |p| > 1
    ensures ChainAhead(g, Connections(g, p[0]), direction, p[1..])
  {
    assert Edge(direction, p[1]) in g.store[p[0]].connections;
    forall k | 0 < k < |p| - 1
      ensures Edge(direction, p[1..][k]) in g.store[p[1..][k - 1]].connections
    {
      assert p[1..][k] == p[k + 1] && p[1..][k - 1] == p[k];
    }
  }

  // ---------------------------------------------------------------------------
  // DoesRegionHaveAnyRoomsInDirection

  /** The loop of `DoesRegionHaveAnyRoomsInDirection` over the connection list `es`. */
  function AnyRoomAhead(g: Graph, es: seq<Edge>, direction: Direction, fuel: nat): bool
    decreases fuel, |es|
  {
    if |es| == 0 then false
    else
      var e := es[0];
      if e.dir == direction && e.to in g.store && (IsRoom(g, e.to) || (fuel > 0 && AnyRoomAhead(g, Connections(g, e.to), direction, fuel - 1))) then
        true
      else
        AnyRoomAhead(g, es[1..], direction, fuel)
  }

  /** `DoesRegionHaveAnyRoomsInDirection(region, direction)`. */
  function HasRoomsInDirection(g: Graph, r: RegionId, direction: Direction, fuel: nat): (b: bool)
    requires r in g.store
    ensures b <==> exists p :: ChainAhead(g, Connections(g, r), direction, p) && |p| <= fuel + 1 && IsRoom(g, p[|p| - 1])
  {
    AnyRoomAheadFindsChain(g, Connections(g, r), direction, fuel);
    AnyRoomAhead(g, Connections(g, r), direction, fuel)
  }

  /** An entry of `es[1..]` is an entry of `es`. */
  lemma InTail(es: seq<Edge>, e: Edge)
    requires |es| > 0 && e in es && e != es[0]
    ensures e in es[1..]
  {
    var i :| 0 <= i < |es| && es[i] == e;
    assert es[1..][i - 1] == e;
  }

  /** When a room is found ahead, some chain of at most `fuel + 1` steps ends in one. */
  lemma {:induction false} AnyRoomAheadSound(g: Graph, es: seq<Edge>, direction: Direction, fuel: nat)
    requires AnyRoomAhead(g, es, direction, fuel)
    ensures exists p :: ChainAhead(g, es, direction, p) && |p| <= fuel + 1 && IsRoom(g, p[|p| - 1])
    decreases fuel, |es|
  {
    var e := es[0];
    if e.dir == direction && e.to in g.store && IsRoom(g, e.to) {
      assert e == Edge(direction, e.to);
      assert ChainAhead(g, es, direction, [e.to]);
    } else if e.dir == direction && e.to in g.store && fuel > 0 && AnyRoomAhead(g, Connections(g, e.to), direction, fuel - 1) {
      AnyRoomAheadSound(g, Connections(g, e.to), direction, fuel - 1);
      var p :| ChainAhead(g, Connections(g, e.to), direction, p) && |p| <= fuel && IsRoom(g, p[|p| - 1]);
      assert e == Edge(direction, e.to);
      ChainCons(g, es, direction, e.to, p);
      assert ([e.to] + p)[|p|] == p[|p| - 1];
    } else {
      AnyRoomAheadSound(g, es[1..], direction, fuel);
      var p :| ChainAhead(g, es[1..], direction, p) && |p| <= fuel + 1 && IsRoom(g, p[|p| - 1]);
      assert ChainAhead(g, es, direction, p);
    }
  }

  /** When a chain of at most `fuel + 1` steps ends in a room, a room is found ahead. */
  lemma {:induction false} AnyRoomAheadComplete(g: Graph, es: seq<Edge>, direction: Direction, fuel: nat, p: seq<RegionId>)
    requires ChainAhead(g, es, direction, p) && |p| <= fuel + 1 && IsRoom(g, p[|p| - 1])
    ensures AnyRoomAhead(g, es, direction, fuel)
    decreases fuel, |es|
  {
    var e := es[0];
    if e == Edge(direction, p[0]) {
      if !IsRoom(g, p[0]) {
        ChainTail(g, es, direction, p);
        assert p[1..][|p| - 2] == p[|p| - 1];
        AnyRoomAheadComplete(g, Connections(g, p[0]), direction, fuel - 1, p[1..]);
      }
    } else {
      InTail(es, Edge(direction, p[0]));
      AnyRoomAheadComplete(g, es[1..], direction, fuel, p);
    }
  }

  /** A room is found ahead exactly when some chain of at most `fuel + 1` steps ends in one. */
  lemma AnyRoomAheadFindsChain(g: Graph, es: seq<Edge>, direction: Direction, fuel: nat)
    ensures AnyRoomAhead(g, es, direction, fuel) <==>
      exists p :: ChainAhead(g, es, direction, p) && |p| <= fuel + 1 && IsRoom(g, p[|p| - 1])
  {
    if AnyRoomAhead(g, es, direction, fuel) {
      AnyRoomAheadSound(g, es, direction, fuel);
    }
    forall p | ChainAhead(g, es, direction, p) && |p| <= fuel + 1 && IsRoom(g, p[|p| - 1])
      ensures AnyRoomAhead(g, es, direction, fuel)
    {
      AnyRoomAheadComplete(g, es, direction, fuel, p);
    }
  }

  // ---------------------------------------------------------------------------
  // FindRegionsInDirection

  /** `FindRegionsInDirection` started from the connection list `es`: the enabled ordinary regions
      it adds, in the depth-first order it adds them. */
  function FindAhead(g: Graph, es: seq<Edge>, direction: Direction, fuel: nat): (found: seq<RegionId>)
    ensures AllIn(g, found)
    decreases fuel, |es|
  {
    if |es| == 0 then [] else FindFrom(g, es[0], direction, fuel) + FindAhead(g, es[1..], direction, fuel)
  }

  /** What one entry of a connection list contributes: its region when that is an enabled ordinary
      region in `direction`, followed by what the recursive call finds beyond it. */
  function FindFrom(g: Graph, e: Edge, direction: Direction, fuel: nat): (found: seq<RegionId>)
    ensures AllIn(g, found)
    decreases fuel, 0
  {
    if e.dir == direction && e.to in g.store && !IsRoom(g, e.to) && Enabled(g, e.to) then
      [e.to] + (if fuel > 0 then FindAhead(g, Connections(g, e.to), direction, fuel - 1) else [])
    else []
  }

  /** Every region `FindAhead` finds ends an open chain of at most `fuel + 1` steps. */
  lemma {:induction false} FindAheadSound(g: Graph, es: seq<Edge>, direction: Direction, fuel: nat, x: RegionId)
    requires x in FindAhead(g, es, direction, fuel)
    ensures exists p :: ChainAhead(g, es, direction, p) && |p| <= fuel + 1 && Open(g, p) && p[|p| - 1] == x
    decreases fuel, |es|
  {
    var e := es[0];
    if x in FindFrom(g, e, direction, fuel) {
      assert e == Edge(direction, e.to);
      if x == e.to {
        assert ChainAhead(g, es, direction, [e.to]) && Open(g, [e.to]);
      } else {
        FindAheadSound(g, Connections(g, e.to), direction, fuel - 1, x);
        var p :| ChainAhead(g, Connections(g, e.to), direction, p) && |p| <= fuel && Open(g, p) && p[|p| - 1] == x;
        ChainCons(g, es, direction, e.to, p);
        var q := [e.to] + p;
        assert q[|p|] == p[|p| - 1];
        assert Open(g, q) by {
          forall k | 0 < k < |q| ensures !IsRoom(g, q[k]) && Enabled(g, q[k]) { assert q[k] == p[k - 1]; }
        }
      }
    } else {
      FindAheadSound(g, es[1..], direction, fuel, x);
      var p :| ChainAhead(g, es[1..], direction, p) && |p| <= fuel + 1 && Open(g, p) && p[|p| - 1] == x;
      assert ChainAhead(g, es, direction, p);
    }
  }

  /** The last region of every open chain of at most `fuel + 1` steps is found. */
  lemma {:induction false} FindAheadComplete(g: Graph, es: seq<Edge>, direction: Direction, fuel: nat, p: seq<RegionId>)
    requires ChainAhead(g, es, direction, p) && |p| <= fuel + 1 && Open(g, p)
    ensures p[|p| - 1] in FindAhead(g, es, direction, fuel)
    decreases fuel, |es|
  {
    var e := es[0];
    assert FindAhead(g, es, direction, fuel) == FindFrom(g, e, direction, fuel) + FindAhead(g, es[1..], direction, fuel);
    if e == Edge(direction, p[0]) {
      assert !IsRoom(g, p[0]) && Enabled(g, p[0]);
      if |p| > 1 {
        ChainTail(g, es, direction, p);
        assert p[1..][|p| - 2] == p[|p| - 1];
        assert Open(g, p[1..]) by {
          forall k | 0 <= k < |p| - 1 ensures !IsRoom(g, p[1..][k]) && Enabled(g, p[1..][k]) { assert p[1..][k] == p[k + 1]; }
        }
        FindAheadComplete(g, Connections(g, p[0]), direction, fuel - 1, p[1..]);
      }
    } else {
      InTail(es, Edge(direction, p[0]));
      FindAheadComplete(g, es[1..], direction, fuel, p);
    }
  }

  /** A region is found exactly when an open chain of at most `fuel + 1` steps ends in it. */
  lemma FindAheadFindsChains(g: Graph, es: seq<Edge>, direction: Direction, fuel: nat, x: RegionId)
    ensures x in FindAhead(g, es, direction, fuel) <==>
      exists p :: ChainAhead(g, es, direction, p) && |p| <= fuel + 1 && Open(g, p) && p[|p| - 1] == x
  {
    if x in FindAhead(g, es, direction, fuel) {
      FindAheadSound(g, es, direction, fuel, x);
    }
    forall p | ChainAhead(g, es, direction, p) && |p| <= fuel + 1 && Open(g, p) && p[|p| - 1] == x
      ensures x in FindAhead(g, es, direction, fuel)
    {
      FindAheadComplete(g, es, direction, fuel, p);
    }
  }

  /** `FindRegionsInDirection(region, direction, found)`: what it appends to `found`. */
  function FindRegionsInDirection(g: Graph, r: RegionId, direction: Direction, fuel: nat): (found: seq<RegionId>)
    requires r in g.store
    ensures AllIn(g, found)
    ensures forall k :: 0 <= k < |found| ==> !IsRoom(g, found[k]) && Enabled(g, found[k])
  {
    var found := FindAhead(g, Connections(g, r), direction, fuel);
    forall k | 0 <= k < |found|
      ensures !IsRoom(g, found[k]) && Enabled(g, found[k])
    {
      FindAheadFindsChains(g, Connections(g, r), direction, fuel, found[k]);
      var p :| ChainAhead(g, Connections(g, r), direction, p) && |p| <= fuel + 1 && Open(g, p) && p[|p| - 1] == found[k];
    }
    found
  }

  // ---------------------------------------------------------------------------
  // FindOrthogonalRegions

  /** The ordinary regions the list `es` reaches in `direction`, in list order. */
  function NonRoomsAhead(g: Graph, es: seq<Edge>, direction: Direction): (rs: seq<RegionId>)
    ensures forall x :: x in rs <==> Edge(direction, x) in es && x in g.store && !IsRoom(g, x)
    decreases |es|
  {
    if |es| == 0 then []
    else
      var rest := NonRoomsAhead(g, es[1..], direction);
      assert forall x :: Edge(direction, x) in es <==> Edge(direction, x) == es[0] || Edge(direction, x) in es[1..];
      if es[0].dir == direction && es[0].to in g.store && !IsRoom(g, es[0].to) then [es[0].to] + rest else rest
  }

  /** One pass of the `while (repeat)` loop: every frontier region must have exactly one ordinary
      region in `direction`, and the candidates are those regions in frontier order. */
  function StepAhead(g: Graph, frontier: seq<RegionId>, direction: Direction): (r: W.Option<seq<RegionId>>)
    requires AllIn(g, frontier)
    ensures r.Some? <==> forall i :: 0 <= i < |frontier| ==> |NonRoomsAhead(g, Connections(g, frontier[i]), direction)| == 1
    ensures r.Some? ==> |r.value| == |frontier| && forall i :: 0 <= i < |frontier| ==>
      NonRoomsAhead(g, Connections(g, frontier[i]), direction) == [r.value[i]]
    decreases |frontier|
  {
    if |frontier| == 0 then W.Some([])
    else
      var first := NonRoomsAhead(g, Connections(g, frontier[0]), direction);
      AllInTail(g, g, frontier);
      var rest := StepAhead(g, frontier[1..], direction);
      assert forall i :: 0 < i < |frontier| ==> frontier[i] == frontier[1..][i - 1];
      if |first| != 1 then W.None
      else if rest.None? then W.None
      else W.Some([first[0]] + rest.value)
  }

  /** The `while (repeat)` loop of `FindOrthogonalRegions`: while every frontier region has exactly
      one ordinary region ahead, those regions join `found` and become the frontier. */
  function ExtendAhead(g: Graph, direction: Direction, found: seq<RegionId>, frontier: seq<RegionId>, fuel: nat): (res: seq<RegionId>)
    requires AllIn(g, found) && AllIn(g, frontier)
    ensures AllIn(g, res) && |found| <= |res| && forall k :: 0 <= k < |found| ==> res[k] == found[k]
    ensures forall k :: |found| <= k < |res| ==> !IsRoom(g, res[k])
    decreases fuel
  {
    match StepAhead(g, frontier, direction)
    case None => found
    case Some(candidates) =>
      if fuel == 0 then found
      else
        assert forall i :: 0 <= i < |candidates| ==> candidates[i] in NonRoomsAhead(g, Connections(g, frontier[i]), direction);
        var res := ExtendAhead(g, direction, found + candidates, candidates, fuel - 1);
        forall k | |found| <= k < |found| + |candidates| ensures !IsRoom(g, res[k]) {
          assert res[k] == (found + candidates)[k] == candidates[k - |found|];
        }
        res
  }

  /** Every listed id names an ordinary region (not a room) of `g`. */
  predicate Ordinary(g: Graph, ids: seq<RegionId>) {
    forall k :: 0 <= k < |ids| ==> ids[k] in g.store && !g.store[ids[k]].isRoom
  }

  lemma OrdinaryConcat(g: Graph, a: seq<RegionId>, b: seq<RegionId>)
    requires Ordinary(g, a) && Ordinary(g, b)
    ensures Ordinary(g, a + b)
  {
    forall k | 0 <= k < |a + b| ensures (a + b)[k] in g.store && !g.store[(a + b)[k]].isRoom {
      if k >= |a| { assert (a + b)[k] == b[k - |a|]; }
    }
  }

  /** The regions `FindOrthogonalRegions` gathers sideways before it grows in `direction`: those
      clockwise of `r`, then those counter-clockwise. */
  function Sideways(g: Graph, r: RegionId, direction: Direction, fuel: nat): (found: seq<RegionId>)
    requires r in g.store
    ensures Ordinary(g, found)
  {
    var cw := FindRegionsInDirection(g, r, Rotate(direction, Clockwise), fuel);
    var ccw := FindRegionsInDirection(g, r, Rotate(direction, CounterClockwise), fuel);
    OrdinaryConcat(g, cw, ccw);
    cw + ccw
  }

  /** `FindOrthogonalRegions(currentRegion, direction, targetRegions)` with `targetRegions` holding
      just `currentRegion`: the regions clockwise and then counter-clockwise of it, then the rows
      the whole set grows by in `direction`. */
  function FindOrthogonalRegions(g: Graph, r: RegionId, direction: Direction, fuel: nat): (found: seq<RegionId>)
    requires r in g.store
    ensures |found| > 0 && found[0] == r && AllIn(g, found)
    ensures forall k :: 0 < k < |found| ==> !IsRoom(g, found[k])
  {
    var side := Sideways(g, r, direction, fuel);
    var start := [r] + side;
    assert AllIn(g, start) && forall k :: 0 < k < |start| ==> !IsRoom(g, start[k]) by {
      forall k | 0 < k < |start| ensures start[k] == side[k - 1] { }
    }
    var found := ExtendAhead(g, direction, start, start, fuel);
    found
  }

  /** The rectangles of the listed regions. */
  function RectsOf(g: Graph, ids: seq<RegionId>): (rs: seq<Rect>)
    requires AllIn(g, ids)
    ensures |rs| == |ids| && forall i :: 0 <= i < |ids| ==> rs[i] == Rectangle(g, ids[i])
  {
    seq(|ids|, i requires 0 <= i < |ids| => Rectangle(g, ids[i]))
  }

  /** The bounds of an `AggregateRegion` holding the listed regions. */
  function AggregateBox(g: Graph, ids: seq<RegionId>): Rect
    requires AllIn(g, ids)
  {
    BoundingBox(RectsOf(g, ids))
  }
}
