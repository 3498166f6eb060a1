/** The region graph of `LevelBuilder`: regions and rooms with their `connections` lists, kept
    in an arena indexed by region id. A region that is removed from `allRegions` stays in the
    arena with its own connection list, as the source's objects do. */
module RegionGraph {
  import opened Grid
  import opened Rects
  import W = Wrappers

  type RegionId = nat

  /** One entry `(direction, region)` of a `connections` list. */
  datatype Edge = Edge(dir: Direction, to: RegionId)

  /** A `Region`, or a `Room` when `isRoom` holds. */
  datatype Region = Region(rect: Rect, connections: seq<Edge>, enabled: bool, isRoom: bool)

  /** `store` holds every region ever created, `live` is the `allRegions` list and `nextId`
      is the id the next created region receives. */
  datatype Graph = Graph(store: map<RegionId, Region>, live: seq<RegionId>, nextId: nat)

  // ---------------------------------------------------------------------------
  // Connection lists

  predicate HasEdgeTo(es: seq<Edge>, n: RegionId) {
    exists i :: 0 <= i < |es| && es[i].to == n
  }

  /** A list that extends another names every region the shorter one names. */
  lemma HasEdgeToGrows(es: seq<Edge>, es': seq<Edge>, n: RegionId)
    requires es <= es' && HasEdgeTo(es, n)
    ensures HasEdgeTo(es', n)
  {
    var i :| 0 <= i < |es| && es[i].to == n;
    assert es'[i] == es[i];
  }

  /** No region is listed twice. */
  predicate NoDupTargets(es: seq<Edge>) {
    forall i, j :: 0 <= i < j < |es| ==> es[i].to != es[j].to
  }

  predicate NoDups(s: seq<RegionId>) {
    forall i, j :: 0 <= i < j < |s| ==> s[i] != s[j]
  }

  /** A connection list without duplicates whose entries name existing regions in a real direction. */
  predicate EdgesWf(es: seq<Edge>, keys: set<RegionId>) {
    && NoDupTargets(es)
    && (forall i :: 0 <= i < |es| ==> es[i].to in keys && es[i].dir != None)
  }

  /** The direction in which a duplicate-free list reaches `n`, or `None` when it does not. */
  ghost function EdgeDir(es: seq<Edge>, n: RegionId): Direction {
    if HasEdgeTo(es, n) then
      var i :| 0 <= i < |es| && es[i].to == n; es[i].dir
    else None
  }

  lemma EdgeDirAt(es: seq<Edge>, n: RegionId, i: nat)
    requires NoDupTargets(es) && i < |es| && es[i].to == n
    ensures EdgeDir(es, n) == es[i].dir
  {
  }

  // ---------------------------------------------------------------------------
  // Graph invariant

  /** The graph is well formed: ids are below `nextId`, every connection list is duplicate
      free and closed in the arena, and `allRegions` lists existing regions once each. */
  predicate Wf(g: Graph) {
    && (forall k {:trigger g.store[k]} :: k in g.store ==> k < g.nextId && EdgesWf(g.store[k].connections, g.store.Keys))
    && (forall i :: 0 <= i < |g.live| ==> g.live[i] in g.store)
    && NoDups(g.live)
  }

  /** `g'` is a later state of `g`: regions are never destroyed, never resized and never turn
      into rooms or back, and ids are never reused. */
  predicate Evolves(g: Graph, g': Graph) {
    && g.nextId <= g'.nextId
    && (forall k :: k in g.store ==>
          k in g'.store && g'.store[k].rect == g.store[k].rect && g'.store[k].isRoom == g.store[k].isRoom)
  }

  /** `allRegions` gains only regions created after `g`. */
  predicate ListsOnlyFresh(g: Graph, g': Graph) {
    forall x :: x in g'.live ==> x in g.live || x >= g.nextId
  }

  /** Rooms listed in `allRegions` stay listed: rooms are never removed or subdivided. */
  predicate RoomsStayLive(g: Graph, g': Graph) {
    forall x :: x in g.live && x in g.store && g.store[x].isRoom ==> x in g'.live
  }

  /** A whole step of the level builder: the graph stays well formed, regions persist
      unchanged in shape, only new regions join `allRegions` and no room leaves it. */
  predicate Extends(g: Graph, g': Graph) {
    Wf(g') && Evolves(g, g') && ListsOnlyFresh(g, g') && RoomsStayLive(g, g')
  }

  lemma EvolvesTransitive(g: Graph, g': Graph, g'': Graph)
    requires Evolves(g, g') && Evolves(g', g'')
    ensures Evolves(g, g'')
  {
  }

  lemma ExtendsTransitive(g: Graph, g': Graph, g'': Graph)
    requires Extends(g, g') && Extends(g', g'')
    ensures Extends(g, g'')
  {
  }

  /** `a` lists `b` in direction `d` exactly when `b` lists `a` in the inverse direction. */
  ghost predicate Mirrored(g: Graph, a: RegionId, b: RegionId)
    requires a in g.store && b in g.store
  {
    EdgeDir(g.store[a].connections, b) == Inverse(EdgeDir(g.store[b].connections, a))
  }

  /** Directional symmetry on the regions `s`: every two of them are mirrored. */
  ghost predicate Symmetric(g: Graph, s: set<RegionId>)
    requires s <= g.store.Keys
  {
    forall a, b {:trigger Mirrored(g, a, b)} :: a in s && b in s && a != b ==> Mirrored(g, a, b)
  }

  /** The regions `allRegions` lists. */
  function LiveSet(g: Graph): (s: set<RegionId>)
    requires Wf(g)
    ensures s <= g.store.Keys
    ensures forall x :: x in s <==> x in g.live
  {
    set x | x in g.live
  }

  /** Directional symmetry among the regions of `allRegions`. */
  ghost predicate SymmetricLive(g: Graph)
    requires Wf(g)
  {
    Symmetric(g, LiveSet(g))
  }

  lemma SymmetricSubset(g: Graph, s: set<RegionId>, t: set<RegionId>)
    requires t <= s <= g.store.Keys && Symmetric(g, s)
    ensures Symmetric(g, t)
  {
  }

  /** Symmetry looks only at the regions, not at `allRegions` or `nextId`. */
  lemma SymmetricSameStore(g: Graph, g': Graph, s: set<RegionId>)
    requires s <= g.store.Keys && g'.store == g.store && Symmetric(g, s)
    ensures Symmetric(g', s)
  {
    forall a, b | a in s && b in s && a != b ensures Mirrored(g', a, b) {
      assert Mirrored(g, a, b);
    }
  }

  /** Two states of one region that differ at most in their connection lists. */
  predicate SameAttributes(a: Region, b: Region) {
    a.rect == b.rect && a.enabled == b.enabled && a.isRoom == b.isRoom
  }

  function Rectangle(g: Graph, k: RegionId): Rect
    requires k in g.store
  {
    g.store[k].rect
  }

  function Connections(g: Graph, k: RegionId): seq<Edge>
    requires k in g.store
  {
    g.store[k].connections
  }

  function IsRoom(g: Graph, k: RegionId): bool
    requires k in g.store
  {
    g.store[k].isRoom
  }

  function Enabled(g: Graph, k: RegionId): bool
    requires k in g.store
  {
    g.store[k].enabled
  }

  // ---------------------------------------------------------------------------
  // Creating regions

  /** `new Region(...)` or `new Room(...)`: a fresh, enabled region without connections. */
  function Alloc(g: Graph, rect: Rect, isRoom: bool): (r: (Graph, RegionId))
    requires Wf(g)
    ensures Wf(r.0) && Evolves(g, r.0)
    ensures r.1 == g.nextId && r.1 !in g.store && r.0.nextId == g.nextId + 1
    ensures r.0.store == g.store[r.1 := Region(rect, [], true, isRoom)] && r.0.live == g.live
  {
    var id := g.nextId;
    (Graph(g.store[id := Region(rect, [], true, isRoom)], g.live, g.nextId + 1), id)
  }

  /** `AddRegionToList`: appends a region that is not yet listed. */
  function AddToList(g: Graph, k: RegionId): (g': Graph)
    requires Wf(g) && k in g.store && k !in g.live
    ensures Wf(g') && Evolves(g, g')
    ensures g'.store == g.store && g'.nextId == g.nextId && g'.live == g.live + [k]
  {
    g.(live := g.live + [k])
  }

  /** Replaces one region's connection list. */
  function SetConnections(g: Graph, k: RegionId, es: seq<Edge>): (g': Graph)
    requires Wf(g) && k in g.store && EdgesWf(es, g.store.Keys)
    ensures Wf(g') && Evolves(g, g')
    ensures g'.store == g.store[k := g.store[k].(connections := es)]
    ensures g'.live == g.live && g'.nextId == g.nextId
  {
    g.(store := g.store[k := g.store[k].(connections := es)])
  }

  /** Sets one region's `Enabled` flag. */
  function SetEnabled(g: Graph, k: RegionId, b: bool): (g': Graph)
    requires Wf(g) && k in g.store
    ensures Wf(g') && Evolves(g, g')
    ensures g'.store == g.store[k := g.store[k].(enabled := b)]
    ensures g'.live == g.live && g'.nextId == g.nextId
  {
    g.(store := g.store[k := g.store[k].(enabled := b)])
  }

  // ---------------------------------------------------------------------------
  // Connecting regions

  /** Appends `(d, n)` to `k`'s list unless `k` already lists `n`. */
  function AddEdge(g: Graph, k: RegionId, d: Direction, n: RegionId): (g': Graph)
    requires Wf(g) && k in g.store && n in g.store && d != None
    ensures Wf(g') && Evolves(g, g')
    ensures HasEdgeTo(Connections(g', k), n)
    ensures HasEdgeTo(Connections(g, k), n) ==> g' == g
    ensures !HasEdgeTo(Connections(g, k), n) ==> Connections(g', k) == Connections(g, k) + [Edge(d, n)]
    ensures g'.store.Keys == g.store.Keys && g'.live == g.live && g'.nextId == g.nextId
    ensures forall m :: m in g.store && m != k ==> g'.store[m] == g.store[m]
    ensures SameAttributes(g.store[k], g'.store[k])
  {
    var es := Connections(g, k);
    if HasEdgeTo(es, n) then g
    else
      var es' := es + [Edge(d, n)];
      assert es'[|es|].to == n;
      SetConnections(g, k, es')
  }

  /** `es` with `e` appended unless it already lists `e.to`. */
  function AddIfAbsent(es: seq<Edge>, e: Edge): seq<Edge> {
    if HasEdgeTo(es, e.to) then es else es + [e]
  }

  /** The two list updates of a successful `TryConnectRegions`: `l` gains `(d, n)` and `n`
      gains `(Inverse(d), l)`, each only when it does not list the other yet. */
  function Link(g: Graph, l: RegionId, d: Direction, n: RegionId): (g': Graph)
    requires Wf(g) && l in g.store && n in g.store && d != None
    ensures Wf(g') && Evolves(g, g')
    ensures g'.store.Keys == g.store.Keys && g'.live == g.live && g'.nextId == g.nextId
    ensures HasEdgeTo(Connections(g', l), n) && HasEdgeTo(Connections(g', n), l)
    ensures l != n ==> Connections(g', l) == AddIfAbsent(Connections(g, l), Edge(d, n))
    ensures l != n ==> Connections(g', n) == AddIfAbsent(Connections(g, n), Edge(Inverse(d), l))
    ensures forall k :: k in g.store ==>
      && Connections(g, k) <= Connections(g', k)
      && SameAttributes(g.store[k], g'.store[k])
    ensures forall k :: k in g.store && k != l && k != n ==> g'.store[k] == g.store[k]
  {
    var g1 := AddEdge(g, l, d, n);
    var g2 := AddEdge(g1, n, Inverse(d), l);
    EvolvesTransitive(g, g1, g2);
    forall k | k in g.store
      ensures Connections(g, k) <= Connections(g2, k) && SameAttributes(g.store[k], g2.store[k])
    {
      assert Connections(g, k) <= Connections(g1, k) && SameAttributes(g.store[k], g1.store[k]);
    }
    assert HasEdgeTo(Connections(g2, l), n) by {
      if l != n {
        assert Connections(g2, l) == Connections(g1, l);
      }
    }
    g2
  }

  /** `TryConnectRegions(lhs, rhs, direction)`: a missing region or a pair that does not border
      each other is refused without change; otherwise each side gains an entry for the other,
      the left one in `direction` (or the computed adjacency when `direction` is `None`) and
      the right one in the inverse direction, each only when it does not list the other yet. */
  function TryConnect(g: Graph, lhs: W.Option<RegionId>, rhs: W.Option<RegionId>, direction: Direction)
    : (r: (Graph, bool))
    requires Wf(g)
    requires lhs.Some? ==> lhs.value in g.store
    requires rhs.Some? ==> rhs.value in g.store
    ensures Wf(r.0) && Evolves(g, r.0)
    ensures r.0.store.Keys == g.store.Keys && r.0.live == g.live && r.0.nextId == g.nextId
    ensures !r.1 ==> r.0 == g
    ensures r.1 <==> (lhs.Some? && rhs.Some? &&
      (direction != None || TryGetAdjacency(Rectangle(g, lhs.value), Rectangle(g, rhs.value)) != None))
    ensures r.1 ==> r.0 == Link(g, lhs.value,
      if direction == None then TryGetAdjacency(Rectangle(g, lhs.value), Rectangle(g, rhs.value)) else direction,
      rhs.value)
    ensures r.1 ==> HasEdgeTo(Connections(r.0, lhs.value), rhs.value)
    ensures r.1 ==> HasEdgeTo(Connections(r.0, rhs.value), lhs.value)
    ensures forall k :: k in g.store ==>
      && Connections(g, k) <= Connections(r.0, k)
      && SameAttributes(g.store[k], r.0.store[k])
    ensures forall k :: k in g.store && (lhs.None? || k != lhs.value) && (rhs.None? || k != rhs.value) ==>
      Connections(r.0, k) == Connections(g, k)
  {
    if lhs.None? || rhs.None? then (g, false)
    else
      var l, n := lhs.value, rhs.value;
      var adjacency := if direction == None then TryGetAdjacency(Rectangle(g, l), Rectangle(g, n)) else direction;
      if adjacency == None then (g, false)
      else (Link(g, l, adjacency, n), true)
  }

  /** `ConnectRegions`: `TryConnectRegions` whose refusal the source only reports in a debug
      assertion. */
  function Connect(g: Graph, lhs: RegionId, rhs: RegionId, direction: Direction): (g': Graph)
    requires Wf(g) && lhs in g.store && rhs in g.store
    ensures Wf(g') && Evolves(g, g')
    ensures g'.store.Keys == g.store.Keys && g'.live == g.live && g'.nextId == g.nextId
    ensures direction != None ==> g' == Link(g, lhs, direction, rhs)
    ensures direction != None || TryGetAdjacency(Rectangle(g, lhs), Rectangle(g, rhs)) != None ==>
      HasEdgeTo(Connections(g', lhs), rhs) && HasEdgeTo(Connections(g', rhs), lhs)
    ensures forall k :: k in g.store ==>
      && Connections(g, k) <= Connections(g', k)
      && SameAttributes(g.store[k], g'.store[k])
    ensures forall k :: k in g.store && k != lhs && k != rhs ==> g'.store[k] == g.store[k]
  {
    TryConnect(g, W.Some(lhs), W.Some(rhs), direction).0
  }

  /** Appending an entry to a list changes what it says about other regions only when it did
      not mention them before. */
  lemma {:induction false} EdgeDirAppend(es: seq<Edge>, e: Edge, n: RegionId)
    requires NoDupTargets(es) && !HasEdgeTo(es, e.to)
    ensures NoDupTargets(es + [e])
    ensures EdgeDir(es + [e], n) == if n == e.to then e.dir else EdgeDir(es, n)
  {
    var es' := es + [e];
    if n == e.to {
      EdgeDirAt(es', n, |es|);
    } else if HasEdgeTo(es, n) {
      var i :| 0 <= i < |es| && es[i].to == n;
      EdgeDirAt(es, n, i);
      EdgeDirAt(es', n, i);
    } else {
      assert !HasEdgeTo(es', n) by {
        forall i | 0 <= i < |es'| ensures es'[i].to != n {
          if i < |es| { assert es'[i] == es[i]; }
        }
      }
    }
  }

  /** In a well-formed list the direction is `None` exactly for regions it does not list. */
  lemma EdgeDirNone(es: seq<Edge>, keys: set<RegionId>, n: RegionId)
    requires EdgesWf(es, keys)
    ensures EdgeDir(es, n) != None <==> HasEdgeTo(es, n)
  {
  }

  /** What `AddEdge` does to the directions recorded in `k`'s list. */
  lemma AddEdgeDir(g: Graph, k: RegionId, d: Direction, n: RegionId, m: RegionId)
    requires Wf(g) && k in g.store && n in g.store && d != None
    ensures EdgeDir(Connections(AddEdge(g, k, d, n), k), m)
      == if !HasEdgeTo(Connections(g, k), n) && m == n then d else EdgeDir(Connections(g, k), m)
  {
    if !HasEdgeTo(Connections(g, k), n) {
      EdgeDirAppend(Connections(g, k), Edge(d, n), m);
    }
  }

  /** Connecting two regions keeps directional symmetry among any regions it holds for: both
      sides gain their entries together or neither does. */
  lemma {:induction false} TryConnectKeepsSymmetry(g: Graph, lhs: RegionId, rhs: RegionId, direction: Direction, s: set<RegionId>)
    requires Wf(g) && lhs in g.store && rhs in g.store
    requires s <= g.store.Keys && Symmetric(g, s)
    ensures Symmetric(TryConnect(g, W.Some(lhs), W.Some(rhs), direction).0, s)
  {
    var r := TryConnect(g, W.Some(lhs), W.Some(rhs), direction);
    if lhs == rhs {
      SelfConnectKeepsSymmetry(g, lhs, direction, s);
    } else if r.1 {
      var adjacency := if direction == None then TryGetAdjacency(Rectangle(g, lhs), Rectangle(g, rhs)) else direction;
      var g1 := AddEdge(g, lhs, adjacency, rhs);
      var g2 := AddEdge(g1, rhs, Inverse(adjacency), lhs);
      assert r.0 == Link(g, lhs, adjacency, rhs) == g2;
      var el, er := Connections(g, lhs), Connections(g, rhs);
      var addL := !HasEdgeTo(el, rhs);
      var addR := !HasEdgeTo(er, lhs);
      forall m ensures EdgeDir(Connections(g2, lhs), m) == if addL && m == rhs then adjacency else EdgeDir(el, m) {
        AddEdgeDir(g, lhs, adjacency, rhs, m);
      }
      forall m ensures EdgeDir(Connections(g2, rhs), m) == if addR && m == lhs then Inverse(adjacency) else EdgeDir(er, m) {
        AddEdgeDir(g1, rhs, Inverse(adjacency), lhs, m);
      }
      if lhs in s && rhs in s {
        assert Mirrored(g, lhs, rhs);
        EdgeDirNone(el, g.store.Keys, rhs);
        EdgeDirNone(er, g.store.Keys, lhs);
        assert EdgeDir(el, rhs) == Inverse(EdgeDir(er, lhs));
        InverseInvolution(adjacency);
        assert addL == addR;
      }
      forall a, b | a in s && b in s && a != b ensures Mirrored(g2, a, b) {
        assert Mirrored(g, a, b);
        InverseInvolution(adjacency);
        if a == lhs && b == rhs {
        } else if a == rhs && b == lhs {
        } else if a == lhs {
          assert Connections(g2, b) == Connections(g, b);
        } else if a == rhs {
          assert Connections(g2, b) == Connections(g, b);
        } else if b == lhs || b == rhs {
          assert Connections(g2, a) == Connections(g, a);
        } else {
          assert Connections(g2, a) == Connections(g, a);
          assert Connections(g2, b) == Connections(g, b);
        }
      }
    }
  }

  /** Connecting a region with itself changes only its own entry for itself, which symmetry
      does not look at. */
  lemma SelfConnectKeepsSymmetry(g: Graph, k: RegionId, direction: Direction, s: set<RegionId>)
    requires Wf(g) && k in g.store && s <= g.store.Keys && Symmetric(g, s)
    ensures Symmetric(TryConnect(g, W.Some(k), W.Some(k), direction).0, s)
  {
    var r := TryConnect(g, W.Some(k), W.Some(k), direction);
    if r.1 {
      var adjacency := if direction == None then TryGetAdjacency(Rectangle(g, k), Rectangle(g, k)) else direction;
      var g1 := AddEdge(g, k, adjacency, k);
      var g2 := AddEdge(g1, k, Inverse(adjacency), k);
      assert r.0 == Link(g, k, adjacency, k) == g2;
      forall m | m != k ensures EdgeDir(Connections(g2, k), m) == EdgeDir(Connections(g, k), m) {
        AddEdgeDir(g, k, adjacency, k, m);
        AddEdgeDir(g1, k, Inverse(adjacency), k, m);
      }
      forall a, b | a in s && b in s && a != b ensures Mirrored(g2, a, b) {
        assert Mirrored(g, a, b);
        if a != k { assert Connections(g2, a) == Connections(g, a); }
        if b != k { assert Connections(g2, b) == Connections(g, b); }
      }
    }
  }

  /** `ConnectRegions` keeps directional symmetry among any regions it holds for. */
  lemma ConnectKeepsSymmetry(g: Graph, lhs: RegionId, rhs: RegionId, direction: Direction, s: set<RegionId>)
    requires Wf(g) && lhs in g.store && rhs in g.store && s <= g.store.Keys && Symmetric(g, s)
    ensures Symmetric(Connect(g, lhs, rhs, direction), s)
  {
    TryConnectKeepsSymmetry(g, lhs, rhs, direction, s);
  }

  /** Both list updates of a successful connection keep directional symmetry. */
  lemma LinkKeepsSymmetry(g: Graph, l: RegionId, d: Direction, n: RegionId, s: set<RegionId>)
    requires Wf(g) && l in g.store && n in g.store && d != None && s <= g.store.Keys && Symmetric(g, s)
    ensures Symmetric(Link(g, l, d, n), s)
  {
    ConnectKeepsSymmetry(g, l, n, d, s);
  }

  /** `TryConnectRegions` keeps the regions of `allRegions` symmetric. */
  lemma TryConnectKeepsSymmetricLive(g: Graph, lhs: RegionId, rhs: RegionId, direction: Direction)
    requires Wf(g) && lhs in g.store && rhs in g.store
    ensures SymmetricLive(g) ==> SymmetricLive(TryConnect(g, W.Some(lhs), W.Some(rhs), direction).0)
  {
    if SymmetricLive(g) {
      var g' := TryConnect(g, W.Some(lhs), W.Some(rhs), direction).0;
      TryConnectKeepsSymmetry(g, lhs, rhs, direction, LiveSet(g));
      assert LiveSet(g') == LiveSet(g);
    }
  }

  /** `ConnectRegions` keeps the regions of `allRegions` symmetric. */
  lemma ConnectKeepsSymmetricLive(g: Graph, lhs: RegionId, rhs: RegionId, direction: Direction)
    requires Wf(g) && lhs in g.store && rhs in g.store
    ensures SymmetricLive(g) ==> SymmetricLive(Connect(g, lhs, rhs, direction))
  {
    TryConnectKeepsSymmetricLive(g, lhs, rhs, direction);
  }

  /** A region created but not yet listed is symmetric with every listed region. */
  lemma AllocKeepsSymmetricLive(g: Graph, rect: Rect, isRoom: bool)
    requires Wf(g)
    ensures var a := Alloc(g, rect, isRoom).0;
      SymmetricLive(g) ==> Symmetric(a, LiveSet(a) + {g.nextId})
  {
    var a := Alloc(g, rect, isRoom).0;
    if SymmetricLive(g) {
      AllocKeepsSymmetry(g, rect, isRoom, LiveSet(g));
      assert LiveSet(a) == LiveSet(g);
    }
  }

  /** Creating a region and appending it to `allRegions` keeps the list symmetric. */
  lemma AllocListedKeepsSymmetry(g: Graph, rect: Rect, isRoom: bool)
    requires Wf(g)
    ensures g.nextId !in Alloc(g, rect, isRoom).0.live
    ensures SymmetricLive(g) ==> SymmetricLive(AddToList(Alloc(g, rect, isRoom).0, g.nextId))
  {
    var a := Alloc(g, rect, isRoom).0;
    assert g.nextId !in g.live;
    if SymmetricLive(g) {
      AllocKeepsSymmetry(g, rect, isRoom, LiveSet(g));
      var g1 := AddToList(a, g.nextId);
      assert LiveSet(g1) == LiveSet(g) + {g.nextId};
      SymmetricSameStore(a, g1, LiveSet(g1));
    }
  }

  /** A fresh region lists nothing and no region lists it, so it is symmetric with every
      region. */
  lemma AllocKeepsSymmetry(g: Graph, rect: Rect, isRoom: bool, s: set<RegionId>)
    requires Wf(g) && s <= g.store.Keys && Symmetric(g, s)
    ensures Symmetric(Alloc(g, rect, isRoom).0, s + {g.nextId})
  {
    var g' := Alloc(g, rect, isRoom).0;
    var n := g.nextId;
    forall a, b | a in s + {n} && b in s + {n} && a != b ensures Mirrored(g', a, b) {
      if a == n {
        FreshUnlisted(g, b);
        assert Connections(g', b) == Connections(g, b);
        assert !HasEdgeTo(Connections(g', a), b);
      } else if b == n {
        FreshUnlisted(g, a);
        assert Connections(g', a) == Connections(g, a);
        assert !HasEdgeTo(Connections(g', b), a);
      } else {
        assert Mirrored(g, a, b);
        assert Connections(g', a) == Connections(g, a) && Connections(g', b) == Connections(g, b);
      }
    }
  }

  /** No region lists the id the next created region receives. */
  lemma FreshUnlisted(g: Graph, k: RegionId)
    requires Wf(g) && k in g.store
    ensures !HasEdgeTo(Connections(g, k), g.nextId)
  {
    assert EdgesWf(g.store[k].connections, g.store.Keys);
  }

  /** Removing a region keeps the rest of `allRegions` symmetric. */
  lemma RemoveRegionKeepsSymmetricLive(g: Graph, r: RegionId)
    requires Wf(g) && r in g.store
    ensures SymmetricLive(g) ==> SymmetricLive(RemoveRegion(g, r))
  {
    if SymmetricLive(g) {
      RemoveRegionKeepsSymmetry(g, r, LiveSet(g));
      assert LiveSet(RemoveRegion(g, r)) == LiveSet(g) - {r};
    }
  }

  lemma InverseInvolution(d: Direction)
    ensures Inverse(Inverse(d)) == d
  {
  }

  // ---------------------------------------------------------------------------
  // Removing regions

  /** The downward scan of `RemoveConnection` from position `i`: the last position at or
      below `i` whose entry names `n`, or -1 when there is none. */
  function LastIndexOf(es: seq<Edge>, n: RegionId, i: int): (r: int)
    requires -1 <= i < |es|
    ensures -1 <= r <= i
    ensures r >= 0 ==> es[r].to == n
    ensures forall j :: r < j <= i ==> es[j].to != n
    decreases i + 1
  {
    if i < 0 then -1
    else if es[i].to == n then i
    else LastIndexOf(es, n, i - 1)
  }

  /** The loop of `RemoveConnection`: removes the entry for `n` nearest the end of the list. */
  function RemoveLast(es: seq<Edge>, n: RegionId): (r: seq<Edge>)
  {
    var i := LastIndexOf(es, n, |es| - 1);
    if i < 0 then es else es[..i] + es[i + 1..]
  }

  /** `List.RemoveAt(i)`: the entries after position `i` move down by one. */
  lemma CutAt(es: seq<Edge>, i: nat)
    requires i < |es|
    ensures |es[..i] + es[i + 1..]| == |es| - 1
    ensures forall j :: 0 <= j < |es| - 1 ==> (es[..i] + es[i + 1..])[j] == if j < i then es[j] else es[j + 1]
  {
  }

  /** Removing the entry for `n` from a duplicate-free list keeps it duplicate free, forgets `n`
      and keeps every other entry with its direction. */
  lemma RemoveLastLaws(es: seq<Edge>, n: RegionId, keys: set<RegionId>, m: RegionId)
    requires EdgesWf(es, keys)
    ensures EdgesWf(RemoveLast(es, n), keys)
    ensures !HasEdgeTo(RemoveLast(es, n), n)
    ensures m != n ==> (HasEdgeTo(RemoveLast(es, n), m) <==> HasEdgeTo(es, m))
    ensures m != n ==> EdgeDir(RemoveLast(es, n), m) == EdgeDir(es, m)
  {
    var i := LastIndexOf(es, n, |es| - 1);
    if i >= 0 {
      CutAt(es, i);
      RemoveAtWf(es, n, keys, i);
      if m != n {
        RemoveAtKeeps(es, n, m, i);
      }
    }
  }

  lemma RemoveAtWf(es: seq<Edge>, n: RegionId, keys: set<RegionId>, i: nat)
    requires EdgesWf(es, keys) && i < |es| && es[i].to == n
    requires forall j :: 0 <= j < |es| - 1 ==> (es[..i] + es[i + 1..])[j] == if j < i then es[j] else es[j + 1]
    requires |es[..i] + es[i + 1..]| == |es| - 1
    ensures EdgesWf(es[..i] + es[i + 1..], keys)
    ensures !HasEdgeTo(es[..i] + es[i + 1..], n)
  {
    var r := es[..i] + es[i + 1..];
    forall a, b | 0 <= a < b < |r| ensures r[a].to != r[b].to {
      var a', b' := if a < i then a else a + 1, if b < i then b else b + 1;
      assert r[a] == es[a'] && r[b] == es[b'];
    }
    forall j | 0 <= j < |r| ensures r[j].to != n && r[j].to in keys && r[j].dir != None {
      var j' := if j < i then j else j + 1;
      assert r[j] == es[j'];
    }
  }

  lemma RemoveAtKeeps(es: seq<Edge>, n: RegionId, m: RegionId, i: nat)
    requires NoDupTargets(es) && m != n && i < |es| && es[i].to == n
    requires forall j :: 0 <= j < |es| - 1 ==> (es[..i] + es[i + 1..])[j] == if j < i then es[j] else es[j + 1]
    requires |es[..i] + es[i + 1..]| == |es| - 1
    requires NoDupTargets(es[..i] + es[i + 1..])
    ensures HasEdgeTo(es[..i] + es[i + 1..], m) <==> HasEdgeTo(es, m)
    ensures EdgeDir(es[..i] + es[i + 1..], m) == EdgeDir(es, m)
  {
    var r := es[..i] + es[i + 1..];
    if HasEdgeTo(es, m) {
      var k :| 0 <= k < |es| && es[k].to == m;
      EdgeDirAt(es, m, k);
      var k' := if k < i then k else k - 1;
      assert r[k'] == es[k];
      EdgeDirAt(r, m, k');
    }
  }

  /** `RemoveConnection(from, other)`. */
  function RemoveConnection(g: Graph, from: RegionId, other: RegionId): (g': Graph)
    requires Wf(g) && from in g.store
    ensures Wf(g') && Evolves(g, g')
    ensures g'.store == g.store[from := g.store[from].(connections := RemoveLast(Connections(g, from), other))]
    ensures g'.live == g.live && g'.nextId == g.nextId
  {
    RemoveLastLaws(Connections(g, from), other, g.store.Keys, other);
    SetConnections(g, from, RemoveLast(Connections(g, from), other))
  }

  /** A non-empty list names `k` when its head or its tail does; a duplicate-free tail does not
      name the head's region. */
  lemma HasEdgeToTail(es: seq<Edge>, k: RegionId)
    requires |es| > 0
    ensures HasEdgeTo(es, k) <==> k == es[0].to || HasEdgeTo(es[1..], k)
    ensures NoDupTargets(es) ==> !HasEdgeTo(es[1..], es[0].to)
  {
    var rest := es[1..];
    if HasEdgeTo(es, k) {
      var i :| 0 <= i < |es| && es[i].to == k;
      if i > 0 { assert rest[i - 1].to == k; }
    }
    if HasEdgeTo(rest, k) {
      var i :| 0 <= i < |rest| && rest[i].to == k;
      assert es[i + 1].to == k;
    }
  }

  /** The loop of `RemoveRegion` over a snapshot `es` of the removed region's list: every region
      the snapshot names loses its entry for `r`, every other region is untouched. */
  function RemoveFromNeighbours(g: Graph, r: RegionId, es: seq<Edge>): (g': Graph)
    requires Wf(g) && EdgesWf(es, g.store.Keys)
    ensures Wf(g') && Evolves(g, g')
    ensures g'.store.Keys == g.store.Keys && g'.live == g.live && g'.nextId == g.nextId
    ensures forall k :: k in g.store ==>
      && SameAttributes(g.store[k], g'.store[k])
      && Connections(g', k) == if HasEdgeTo(es, k) then RemoveLast(Connections(g, k), r) else Connections(g, k)
    decreases |es|
  {
    if |es| == 0 then g
    else
      var g1 := RemoveConnection(g, es[0].to, r);
      var rest := es[1..];
      HasEdgeToTail(es, es[0].to);
      var g2 := RemoveFromNeighbours(g1, r, rest);
      forall k | k in g.store
        ensures Connections(g2, k) == if HasEdgeTo(es, k) then RemoveLast(Connections(g, k), r) else Connections(g, k)
      {
        HasEdgeToTail(es, k);
        if k == es[0].to {
          assert Connections(g2, k) == Connections(g1, k);
        } else {
          assert Connections(g1, k) == Connections(g, k);
        }
      }
      g2
  }

  /** The first position at or above `i` holding `x`, or `|s|` when there is none. */
  function IndexOf(s: seq<RegionId>, x: RegionId, i: nat): (r: nat)
    requires i <= |s|
    ensures i <= r <= |s|
    ensures r < |s| ==> s[r] == x
    ensures forall j :: i <= j < r ==> s[j] != x
    decreases |s| - i
  {
    if i == |s| then i
    else if s[i] == x then i
    else IndexOf(s, x, i + 1)
  }

  /** `List.Remove`: drops the first occurrence, if any. */
  function RemoveFirst(s: seq<RegionId>, x: RegionId): (r: seq<RegionId>)
  {
    var i := IndexOf(s, x, 0);
    if i == |s| then s else s[..i] + s[i + 1..]
  }

  /** Removing an element from a duplicate-free list keeps exactly the other elements. */
  lemma RemoveFirstLaws(s: seq<RegionId>, x: RegionId, y: RegionId)
    requires NoDups(s)
    ensures NoDups(RemoveFirst(s, x))
    ensures y in RemoveFirst(s, x) <==> y in s && y != x
  {
    var r := RemoveFirst(s, x);
    var i := IndexOf(s, x, 0);
    if i < |s| {
      assert |r| == |s| - 1;
      assert forall j :: 0 <= j < |r| ==> r[j] == if j < i then s[j] else s[j + 1];
      if y in s && y != x {
        var k :| 0 <= k < |s| && s[k] == y;
        assert r[if k < i then k else k - 1] == y;
      }
    } else {
      assert x !in s;
    }
  }

  /** `RemoveRegion`: every region that `r` lists loses its last entry for `r`, `r` leaves
      `allRegions`, and `r` keeps its own list. */
  function RemoveRegion(g: Graph, r: RegionId): (g': Graph)
    requires Wf(g) && r in g.store
    ensures Wf(g') && Evolves(g, g')
    ensures g'.store.Keys == g.store.Keys && g'.nextId == g.nextId
    ensures g'.live == RemoveFirst(g.live, r) && r !in g'.live
    ensures forall y :: y in g'.live <==> y in g.live && y != r
    ensures !IsRoom(g, r) ==> Extends(g, g')
    ensures forall k :: k in g.store ==>
      && SameAttributes(g.store[k], g'.store[k])
      && Connections(g', k) == if HasEdgeTo(Connections(g, r), k) then RemoveLast(Connections(g, k), r) else Connections(g, k)
  {
    var g1 := RemoveFromNeighbours(g, r, Connections(g, r));
    var live := RemoveFirst(g.live, r);
    forall y ensures y in live <==> y in g.live && y != r {
      RemoveFirstLaws(g.live, r, y);
    }
    RemoveFirstLaws(g.live, r, r);
    DropFromLive(g, g1, live, r);
    g1.(live := live)
  }

  /** A state with the same regions whose list keeps all but `r` of the old one, without
      repeats, is well formed, and extends the old one when `r` is not a room. */
  lemma DropFromLive(g: Graph, g1: Graph, live: seq<RegionId>, r: RegionId)
    requires Wf(g) && Wf(g1) && Evolves(g, g1) && r in g.store
    requires g1.store.Keys == g.store.Keys && g1.live == g.live && g1.nextId == g.nextId
    requires NoDups(live) && forall y :: y in live <==> y in g.live && y != r
    ensures Wf(g1.(live := live)) && Evolves(g, g1.(live := live))
    ensures !IsRoom(g, r) ==> Extends(g, g1.(live := live))
  {
    var g2 := g1.(live := live);
    forall i | 0 <= i < |live| ensures live[i] in g2.store {
      assert live[i] in g.live;
    }
  }

  /** After `RemoveRegion(r)` no region that `r` listed still lists `r`, what any region says
      about any other region is unchanged, and `r`'s own list is intact unless it listed itself. */
  lemma RemoveRegionForgetsRegion(g: Graph, r: RegionId, a: RegionId, b: RegionId)
    requires Wf(g) && r in g.store && a in g.store
    ensures HasEdgeTo(Connections(g, r), a) ==> !HasEdgeTo(Connections(RemoveRegion(g, r), a), r)
    ensures b != r ==> EdgeDir(Connections(RemoveRegion(g, r), a), b) == EdgeDir(Connections(g, a), b)
    ensures !HasEdgeTo(Connections(g, r), r) ==> Connections(RemoveRegion(g, r), r) == Connections(g, r)
  {
    RemoveLastLaws(Connections(g, a), r, g.store.Keys, b);
  }

  /** Removing a region keeps directional symmetry among the remaining regions. */
  lemma RemoveRegionKeepsSymmetry(g: Graph, r: RegionId, s: set<RegionId>)
    requires Wf(g) && r in g.store && s <= g.store.Keys && Symmetric(g, s)
    ensures Symmetric(RemoveRegion(g, r), s - {r})
  {
    var g' := RemoveRegion(g, r);
    forall a, b | a in s - {r} && b in s - {r} && a != b ensures Mirrored(g', a, b) {
      assert Mirrored(g, a, b);
      RemoveRegionForgetsRegion(g, r, a, b);
      RemoveRegionForgetsRegion(g, r, b, a);
    }
  }

  // ---------------------------------------------------------------------------
  // Lists of regions

  /** Every region a list names exists in the graph. */
  predicate InStore(g: Graph, es: seq<Edge>) {
    forall i :: 0 <= i < |es| ==> es[i].to in g.store
  }

  /** A region's connections name regions of every later state. */
  lemma ConnectionsInStore(g: Graph, g': Graph, r: RegionId)
    requires Wf(g) && r in g.store && Evolves(g, g')
    ensures InStore(g', Connections(g, r))
  {
    assert EdgesWf(g.store[r].connections, g.store.Keys);
  }

  /** The rest of a list still names regions of a later state. */
  lemma ConnectionsInStoreTail(g: Graph, g': Graph, es: seq<Edge>)
    requires |es| > 0 && InStore(g, es) && Evolves(g, g')
    ensures InStore(g', es[1..])
  {
    forall i | 0 <= i < |es| - 1
      ensures es[1..][i].to in g'.store
    {
      assert es[1..][i] == es[i + 1];
    }
  }

  /** Every id of the list names a region of `g`. */
  predicate AllIn(g: Graph, ids: seq<RegionId>) {
    forall i :: 0 <= i < |ids| ==> ids[i] in g.store
  }

  lemma AllInTail(g: Graph, g': Graph, ids: seq<RegionId>)
    requires |ids| > 0 && AllIn(g, ids) && Evolves(g, g')
    ensures AllIn(g', ids[1..])
  {
    assert forall i :: 0 <= i < |ids| - 1 ==> ids[1..][i] == ids[i + 1];
  }

  lemma AllInCons(g: Graph, g': Graph, first: RegionId, rest: seq<RegionId>)
    requires first in g.store && Evolves(g, g') && AllIn(g', rest)
    ensures AllIn(g', [first] + rest)
  {
  }

  lemma EdgesWfTail(es: seq<Edge>, keys: set<RegionId>)
    requires |es| > 0 && EdgesWf(es, keys)
    ensures EdgesWf(es[1..], keys)
  {
    assert forall i :: 0 <= i < |es| - 1 ==> es[1..][i] == es[i + 1];
  }

  /** `RemoveRegion(r)` changes no region's entry for a region other than `r`. */
  lemma RemoveRegionKeepsEdge(g: Graph, r: RegionId, k: RegionId, x: RegionId)
    requires Wf(g) && r in g.store && k in g.store && x != r
    ensures HasEdgeTo(Connections(RemoveRegion(g, r), k), x) <==> HasEdgeTo(Connections(g, k), x)
  {
    RemoveLastLaws(Connections(g, k), r, g.store.Keys, x);
  }
}
