/** `MergeAdjacentRegionsInDirection`: when a region lists more than one region in a direction,
    none of them a room and no room further on that way, they are replaced by one region over
    their bounding box, which inherits their outside neighbours; the merged region is then
    inspected in turn. */
module Merging {
  import opened Grid
  import opened Rects
  import opened RegionGraph
  import opened Search
  import W = Wrappers

  /** A neighbour that forbids the merge: a room, or a region with a room further on. */
  predicate Blocked(g: Graph, x: RegionId, direction: Direction, fuel: nat) {
    x in g.store && (IsRoom(g, x) || HasRoomsInDirection(g, x, direction, fuel))
  }

  /** The first loop of `MergeAdjacentRegionsInDirection` over the list `es`: the regions it lists
      in `direction`, or `None` when one of them blocks the merge. */
  function MergeCandidates(g: Graph, es: seq<Edge>, direction: Direction, fuel: nat): (r: W.Option<seq<RegionId>>)
    requires InStore(g, es)
    ensures r.Some? ==> Ordinary(g, r.value) && forall x :: x in r.value <==> Edge(direction, x) in es
    ensures r.None? <==> exists i :: 0 <= i < |es| && es[i].dir == direction && Blocked(g, es[i].to, direction, fuel)
    decreases |es|
  {
    if |es| == 0 then W.Some([])
    else
      ConnectionsInStoreTail(g, g, es);
      var e := es[0];
      var rest := MergeCandidates(g, es[1..], direction, fuel);
      assert forall i :: 0 < i < |es| ==> es[i] == es[1..][i - 1];
      assert forall x :: Edge(direction, x) in es <==> Edge(direction, x) == e || Edge(direction, x) in es[1..];
      if e.dir == direction && Blocked(g, e.to, direction, fuel) then W.None
      else if rest.None? then W.None
      else if e.dir == direction then W.Some([e.to] + rest.value)
      else rest
  }

  /** The inner loop over one candidate's list `es`: each region outside the candidates `all`
      that has not been seen yet is connected to the merged region `m` in the direction the
      candidate lists it, and becomes seen. */
  function AbsorbEdges(g: Graph, m: RegionId, es: seq<Edge>, all: seq<RegionId>, seen: seq<RegionId>): (res: (Graph, seq<RegionId>))
    requires Wf(g) && m in g.store && EdgesWf(es, g.store.Keys)
    ensures Wf(res.0) && Evolves(g, res.0)
    ensures res.0.store.Keys == g.store.Keys && res.0.live == g.live && res.0.nextId == g.nextId
    ensures SymmetricLive(g) ==> SymmetricLive(res.0)
    decreases |es|
  {
    if |es| == 0 then (g, seen)
    else
      var e := es[0];
      EdgesWfTail(es, g.store.Keys);
      if e.to !in seen && e.to !in all then
        var g1 := Connect(g, m, e.to, e.dir);
        ConnectKeepsSymmetricLive(g, m, e.to, e.dir);
        var res := AbsorbEdges(g1, m, es[1..], all, seen + [e.to]);
        EvolvesTransitive(g, g1, res.0);
        res
      else
        AbsorbEdges(g, m, es[1..], all, seen)
  }

  /** Every region `AbsorbEdges` has seen lies outside the candidates and is linked with `m`. */
  lemma {:induction false} AbsorbEdgesLinks(g: Graph, m: RegionId, es: seq<Edge>, all: seq<RegionId>, seen: seq<RegionId>)
    requires Wf(g) && m in g.store && EdgesWf(es, g.store.Keys)
    requires forall x :: x in seen ==> x !in all && HasEdgeTo(Connections(g, m), x)
    ensures forall x :: x in AbsorbEdges(g, m, es, all, seen).1 ==>
      x !in all && HasEdgeTo(Connections(AbsorbEdges(g, m, es, all, seen).0, m), x)
    decreases |es|
  {
    if |es| > 0 {
      var e := es[0];
      EdgesWfTail(es, g.store.Keys);
      if e.to !in seen && e.to !in all {
        var g1 := Connect(g, m, e.to, e.dir);
        forall x | x in seen ensures HasEdgeTo(Connections(g1, m), x) {
          HasEdgeToGrows(Connections(g, m), Connections(g1, m), x);
        }
        AbsorbEdgesLinks(g1, m, es[1..], all, seen + [e.to]);
      } else {
        AbsorbEdgesLinks(g, m, es[1..], all, seen);
      }
    }
  }

  /** Every region of the list outside the candidates ends up seen. */
  lemma {:induction false} AbsorbEdgesSeesAll(g: Graph, m: RegionId, es: seq<Edge>, all: seq<RegionId>, seen: seq<RegionId>)
    requires Wf(g) && m in g.store && EdgesWf(es, g.store.Keys)
    ensures forall i :: 0 <= i < |es| && es[i].to !in all ==> es[i].to in AbsorbEdges(g, m, es, all, seen).1
    decreases |es|
  {
    if |es| > 0 {
      var e := es[0];
      EdgesWfTail(es, g.store.Keys);
      assert forall i :: 0 < i < |es| ==> es[i] == es[1..][i - 1];
      if e.to !in seen && e.to !in all {
        var g1 := Connect(g, m, e.to, e.dir);
        AbsorbEdgesSeesAll(g1, m, es[1..], all, seen + [e.to]);
        AbsorbEdgesKeepsSeen(g1, m, es[1..], all, seen + [e.to]);
      } else {
        AbsorbEdgesSeesAll(g, m, es[1..], all, seen);
        AbsorbEdgesKeepsSeen(g, m, es[1..], all, seen);
      }
    }
  }

  /** The candidates' own lists are untouched. */
  lemma {:induction false} AbsorbEdgesLeavesCandidates(g: Graph, m: RegionId, es: seq<Edge>, all: seq<RegionId>, seen: seq<RegionId>)
    requires Wf(g) && m in g.store && m !in all && EdgesWf(es, g.store.Keys)
    ensures forall k :: k in all && k in g.store ==> Connections(AbsorbEdges(g, m, es, all, seen).0, k) == Connections(g, k)
    decreases |es|
  {
    if |es| > 0 {
      var e := es[0];
      EdgesWfTail(es, g.store.Keys);
      if e.to !in seen && e.to !in all {
        var g1 := Connect(g, m, e.to, e.dir);
        AbsorbEdgesLeavesCandidates(g1, m, es[1..], all, seen + [e.to]);
      } else {
        AbsorbEdgesLeavesCandidates(g, m, es[1..], all, seen);
      }
    }
  }

  /** What has been seen stays seen. */
  lemma {:induction false} AbsorbEdgesKeepsSeen(g: Graph, m: RegionId, es: seq<Edge>, all: seq<RegionId>, seen: seq<RegionId>)
    requires Wf(g) && m in g.store && EdgesWf(es, g.store.Keys)
    ensures forall x :: x in seen ==> x in AbsorbEdges(g, m, es, all, seen).1
    decreases |es|
  {
    if |es| > 0 {
      EdgesWfTail(es, g.store.Keys);
      if es[0].to !in seen && es[0].to !in all {
        AbsorbEdgesKeepsSeen(Connect(g, m, es[0].to, es[0].dir), m, es[1..], all, seen + [es[0].to]);
      } else {
        AbsorbEdgesKeepsSeen(g, m, es[1..], all, seen);
      }
    }
  }

  /** `RemoveRegion` as the merge loop sees it: the candidate leaves `allRegions`, and nothing
      else about the list or the arena changes. */
  function Discard(g: Graph, c: RegionId): (g': Graph)
    requires Wf(g) && c in g.store
    ensures Wf(g') && Evolves(g, g') && g'.store.Keys == g.store.Keys && g'.nextId == g.nextId
    ensures forall y :: y in g'.live <==> y in g.live && y != c
    ensures SymmetricLive(g) ==> SymmetricLive(g')
  {
    RemoveRegionKeepsSymmetricLive(g, c);
    RemoveRegion(g, c)
  }

  lemma DiscardKeepsEdge(g: Graph, c: RegionId, k: RegionId, x: RegionId)
    requires Wf(g) && c in g.store && k in g.store && x != c
    ensures HasEdgeTo(Connections(Discard(g, c), k), x) <==> HasEdgeTo(Connections(g, k), x)
  {
    RemoveRegionKeepsEdge(g, c, k, x);
  }

  /** The outer loop over the candidates: each is absorbed into `m` and then removed. */
  function AbsorbAll(g: Graph, m: RegionId, cands: seq<RegionId>, all: seq<RegionId>, seen: seq<RegionId>): (g': Graph)
    requires Wf(g) && m in g.store && AllIn(g, cands)
    ensures Wf(g') && Evolves(g, g') && g'.store.Keys == g.store.Keys && g'.nextId == g.nextId
    ensures forall y :: y in g'.live <==> y in g.live && y !in cands
    ensures SymmetricLive(g) ==> SymmetricLive(g')
    decreases |cands|
  {
    if |cands| == 0 then g
    else
      var c := cands[0];
      assert EdgesWf(g.store[c].connections, g.store.Keys);
      var r := AbsorbEdges(g, m, Connections(g, c), all, seen);
      var g2 := Discard(r.0, c);
      EvolvesTransitive(g, r.0, g2);
      AllInTail(g, g2, cands);
      var g' := AbsorbAll(g2, m, cands[1..], all, r.1);
      EvolvesTransitive(g, g2, g');
      assert forall y :: y in cands <==> y == c || y in cands[1..];
      g'
  }

  /** After the loop, `m` is linked with every region outside the candidates that a candidate
      listed, and with every region seen before. */
  lemma {:induction false} AbsorbAllInherits(g: Graph, m: RegionId, cands: seq<RegionId>, all: seq<RegionId>, seen: seq<RegionId>)
    requires Wf(g) && m in g.store && m !in all && AllIn(g, cands)
    requires forall c :: c in cands ==> c in all
    requires forall x :: x in seen ==> x !in all && HasEdgeTo(Connections(g, m), x)
    ensures forall x :: x in seen ==> HasEdgeTo(Connections(AbsorbAll(g, m, cands, all, seen), m), x)
    ensures forall c, x :: c in cands && x !in all && HasEdgeTo(Connections(g, c), x) ==>
      HasEdgeTo(Connections(AbsorbAll(g, m, cands, all, seen), m), x)
    decreases |cands|
  {
    if |cands| > 0 {
      var c := cands[0];
      assert EdgesWf(g.store[c].connections, g.store.Keys);
      var r := AbsorbEdges(g, m, Connections(g, c), all, seen);
      AbsorbEdgesLinks(g, m, Connections(g, c), all, seen);
      AbsorbEdgesSeesAll(g, m, Connections(g, c), all, seen);
      AbsorbEdgesLeavesCandidates(g, m, Connections(g, c), all, seen);
      AbsorbEdgesKeepsSeen(g, m, Connections(g, c), all, seen);
      var g2 := Discard(r.0, c);
      forall x | x in r.1 ensures HasEdgeTo(Connections(g2, m), x) {
        DiscardKeepsEdge(r.0, c, m, x);
      }
      EvolvesTransitive(g, r.0, g2);
      AllInTail(g, g2, cands);
      AbsorbAllInherits(g2, m, cands[1..], all, r.1);
      var g' := AbsorbAll(g2, m, cands[1..], all, r.1);
      assert g' == AbsorbAll(g, m, cands, all, seen);
      forall x | x in seen ensures HasEdgeTo(Connections(g', m), x) {
        assert x in r.1;
      }
      forall c', x | c' in cands && x !in all && HasEdgeTo(Connections(g, c'), x)
        ensures HasEdgeTo(Connections(g', m), x)
      {
        if c' == c {
          var i :| 0 <= i < |Connections(g, c)| && Connections(g, c)[i].to == x;
          assert x in r.1;
        } else {
          assert c' in cands[1..] && c' in all;
          assert Connections(r.0, c') == Connections(g, c');
          DiscardKeepsEdge(r.0, c, c', x);
          assert HasEdgeTo(Connections(g2, c'), x);
        }
      }
    }
  }

  /** The merge candidates of `source` in `direction`. */
  function Candidates(g: Graph, source: RegionId, direction: Direction, fuel: nat): (r: W.Option<seq<RegionId>>)
    requires Wf(g) && source in g.store
    ensures r.Some? ==> Ordinary(g, r.value) && forall x :: x in r.value <==> Edge(direction, x) in Connections(g, source)
    ensures r.None? <==> exists i :: 0 <= i < |Connections(g, source)| && Connections(g, source)[i].dir == direction &&
                                     Blocked(g, Connections(g, source)[i].to, direction, fuel)
  {
    ConnectionsInStore(g, g, source);
    MergeCandidates(g, Connections(g, source), direction, fuel)
  }

  /** Listing the merged region and dropping ordinary candidates extends the graph. */
  lemma MergedExtends(g: Graph, g1: Graph, g2: Graph, m: RegionId, all: seq<RegionId>)
    requires Wf(g) && Wf(g2) && Evolves(g, g2) && Ordinary(g, all)
    requires g1.live == g.live + [m] && m == g.nextId
    requires forall y :: y in g2.live <==> y in g1.live && y !in all
    ensures Extends(g, g2)
  {
    forall y | y in g2.live ensures y in g.live || y >= g.nextId {
      assert y in g.live + [m];
    }
    forall x | x in g.live && x in g.store && g.store[x].isRoom ensures x in g2.live {
      assert x in g1.live;
      assert x !in all;
    }
  }

  /** One round of `MergeAdjacentRegionsInDirection`: `Some((g', m))` when the candidates may be
      merged and are more than one, `m` being the merged region over their bounding box. */
  function MergeOnce(g: Graph, source: RegionId, direction: Direction, fuel: nat): (res: W.Option<(Graph, RegionId)>)
    requires Wf(g) && source in g.store
    ensures res.Some? <==> Candidates(g, source, direction, fuel).Some? && |Candidates(g, source, direction, fuel).value| > 1
    ensures res.Some? ==>
      && Extends(g, res.value.0)
      && res.value.1 == g.nextId && res.value.1 in res.value.0.store && res.value.1 in res.value.0.live
      && !IsRoom(res.value.0, res.value.1)
      && Rectangle(res.value.0, res.value.1) == AggregateBox(g, Candidates(g, source, direction, fuel).value)
    ensures res.Some? && SymmetricLive(g) ==> SymmetricLive(res.value.0)
  {
    var cands := Candidates(g, source, direction, fuel);
    if cands.None? || |cands.value| <= 1 then W.None
    else
      var all := cands.value;
      var alloc := Alloc(g, AggregateBox(g, all), false);
      var m := alloc.1;
      AllocListedKeepsSymmetry(g, AggregateBox(g, all), false);
      var g1 := AddToList(alloc.0, m);
      EvolvesTransitive(g, alloc.0, g1);
      assert AllIn(g1, all);
      var g2 := AbsorbAll(g1, m, all, all, []);
      EvolvesTransitive(g, g1, g2);
      MergedExtends(g, g1, g2, m, all);
      EvolvesTransitive(alloc.0, g1, g2);
      assert m !in all;
      assert m in g2.live;
      W.Some((g2, m))
  }

  /** After one round the candidates have left `allRegions`, the merged region encloses each of
      them, and it is linked with every outside region a candidate was linked with. */
  lemma MergeOnceAbsorbs(g: Graph, source: RegionId, direction: Direction, fuel: nat)
    requires Wf(g) && source in g.store && MergeOnce(g, source, direction, fuel).Some?
    ensures forall c :: Edge(direction, c) in Connections(g, source) ==>
      && c !in MergeOnce(g, source, direction, fuel).value.0.live
      && Encloses(Rectangle(MergeOnce(g, source, direction, fuel).value.0, MergeOnce(g, source, direction, fuel).value.1), Rectangle(g, c))
    ensures forall c, x ::
      (Edge(direction, c) in Connections(g, source) && HasEdgeTo(Connections(g, c), x) && Edge(direction, x) !in Connections(g, source)) ==>
      HasEdgeTo(Connections(MergeOnce(g, source, direction, fuel).value.0, MergeOnce(g, source, direction, fuel).value.1), x)
  {
    var all := Candidates(g, source, direction, fuel).value;
    var alloc := Alloc(g, AggregateBox(g, all), false);
    var m := alloc.1;
    var g1 := AddToList(alloc.0, m);
    AbsorbAllInherits(g1, m, all, all, []);
    var g2 := AbsorbAll(g1, m, all, all, []);
    assert MergeOnce(g, source, direction, fuel).value == (g2, m);
    BoundingBoxLaws(RectsOf(g, all));
    forall c | Edge(direction, c) in Connections(g, source)
      ensures Encloses(Rectangle(g2, m), Rectangle(g, c))
    {
      var i :| 0 <= i < |all| && all[i] == c;
      assert RectsOf(g, all)[i] == Rectangle(g, c);
    }
    forall c, x | Edge(direction, c) in Connections(g, source) && HasEdgeTo(Connections(g, c), x) &&
                  Edge(direction, x) !in Connections(g, source)
      ensures HasEdgeTo(Connections(g2, m), x)
    {
      assert Connections(g1, c) == Connections(g, c);
    }
  }

  /** `MergeAdjacentRegionsInDirection(sourceRegion, direction)`: merge rounds repeat from each
      merged region until one is refused; `fuel` bounds the number of rounds. */
  function Merge(g: Graph, source: RegionId, direction: Direction, fuel: nat): (g': Graph)
    requires Wf(g) && source in g.store
    ensures Extends(g, g')
    ensures MergeOnce(g, source, direction, fuel).None? ==> g' == g
    ensures SymmetricLive(g) ==> SymmetricLive(g')
    decreases fuel
  {
    match MergeOnce(g, source, direction, fuel)
    case None => g
    case Some((g1, m)) =>
      if fuel == 0 then g1
      else
        var g2 := Merge(g1, m, direction, fuel - 1);
        ExtendsTransitive(g, g1, g2);
        g2
  }
}
