/** The enemy placement of `DungeonBuilder.BuildDungeon`: the floor cells minus the first and
    last three path cells are the candidates; the requested number of them, at most all, are
    drawn without replacement, sorted by their position along the path, and given an enemy each. */
module EnemySlots {
  import opened Grid
  import opened Random
  import Rects
  import W = Wrappers
  import opened Dungeons

  /** `List.Remove`: the first occurrence of `c`, if any, taken out. */
  function Remove(s: seq<Cell>, c: Cell): (r: seq<Cell>)
    ensures c !in s ==> r == s
    ensures c in s ==> |r| == |s| - 1
    ensures multiset(r) == multiset(s) - multiset{c}
    decreases |s|
  {
    if |s| == 0 then []
    else
      assert s == [s[0]] + s[1..];
      if s[0] == c then s[1..]
      else [s[0]] + Remove(s[1..], c)
  }

  /** A list without repeats has at most one of each cell. */
  lemma {:induction false} DistinctCounts(s: seq<Cell>)
    ensures Distinct(s) <==> forall c :: multiset(s)[c] <= 1
    decreases |s|
  {
    if |s| > 0 {
      DistinctCounts(s[1..]);
      assert s == [s[0]] + s[1..];
      if Distinct(s) {
        assert Distinct(s[1..]) by {
          forall i, j | 0 <= i < j < |s| - 1 ensures s[1..][i] != s[1..][j] {
            assert s[i + 1] != s[j + 1];
          }
        }
        assert s[0] !in s[1..] by {
          forall j | 0 <= j < |s| - 1 ensures s[1..][j] != s[0] {
            assert s[0] != s[j + 1];
          }
        }
      }
      if forall c :: multiset(s)[c] <= 1 {
        assert forall c :: multiset(s[1..])[c] <= multiset(s)[c];
        assert s[0] !in s[1..] by {
          assert multiset(s)[s[0]] == 1 + multiset(s[1..])[s[0]];
        }
        DistinctConcat([s[0]], s[1..]);
      }
    }
  }

  /** Lists with the same elements counted alike: one is without repeats iff the other is. */
  lemma SameCountsDistinct(a: seq<Cell>, b: seq<Cell>)
    requires multiset(a) == multiset(b)
    ensures Distinct(a) <==> Distinct(b)
  {
    DistinctCounts(a);
    DistinctCounts(b);
  }

  /** On a list without repeats, `Remove` drops exactly the cell. */
  lemma RemoveDistinct(s: seq<Cell>, c: Cell)
    requires Distinct(s)
    ensures Distinct(Remove(s, c))
    ensures forall x :: x in Remove(s, c) <==> x in s && x != c
  {
    DistinctCounts(s);
    var r := Remove(s, c);
    forall x ensures multiset(r)[x] <= 1 {
    }
    DistinctCounts(r);
    forall x ensures x in r <==> x in s && x != c {
      assert x in r <==> multiset(r)[x] > 0;
      assert x in s <==> multiset(s)[x] > 0;
    }
  }

  /** `Remove` for each of the cells in turn. */
  function RemoveEach(s: seq<Cell>, cs: seq<Cell>): (r: seq<Cell>)
    requires Distinct(s)
    ensures Distinct(r)
    ensures forall x :: x in r <==> x in s && x !in cs
    decreases |cs|
  {
    if |cs| == 0 then s
    else
      RemoveDistinct(s, cs[0]);
      RemoveEach(Remove(s, cs[0]), cs[1..])
  }

  /** The path cells at indices `0 .. min(3, count) - 1`, which the first removal loop visits. */
  function Head(path: seq<Cell>): seq<Cell> {
    path[..Rects.Min(3, |path|)]
  }

  /** The path cells at indices `max(0, count - 3) .. count - 1`, which the second loop visits. */
  function Tail(path: seq<Cell>): seq<Cell> {
    path[Rects.Max(0, |path| - 3)..]
  }

  /** `enemyLocationChoices` after the two removal loops: the floor cells in enumeration order,
      without the start and end of the path. */
  function Candidates(floors: seq<Cell>, path: seq<Cell>): (r: seq<Cell>)
    requires Distinct(floors)
    ensures Distinct(r)
    ensures forall c :: c in r <==> c in floors && c !in Head(path) && c !in Tail(path)
  {
    RemoveEach(RemoveEach(floors, Head(path)), Tail(path))
  }

  /** The choice list with the entry at `i` taken out (`RemoveAt`). */
  function RemoveAt(s: seq<Cell>, i: nat): (r: seq<Cell>)
    requires i < |s|
    ensures |r| == |s| - 1
    ensures multiset(r) == multiset(s) - multiset{s[i]}
  {
    assert s == s[..i] + [s[i]] + s[i + 1..];
    s[..i] + s[i + 1..]
  }

  /** The drawing loop: `n` times, a uniformly drawn index into the remaining choices, that
      choice taken and removed. */
  function Draw(choices: seq<Cell>, n: int, rng: Rng): (r: (seq<Cell>, Rng))
    requires n <= |choices|
    ensures |r.0| == Rects.Max(0, n)
    ensures multiset(r.0) <= multiset(choices)
    decreases n
  {
    if n <= 0 then ([], rng)
    else
      var (i, rng1) := NextBelow(rng, |choices|);
      var c := choices[i];
      var (rest, rng2) := Draw(RemoveAt(choices, i), n - 1, rng1);
      assert multiset([c] + rest) == multiset{c} + multiset(rest);
      ([c] + rest, rng2)
  }

  /** Drawn without replacement from distinct choices, the cells are distinct choices. */
  lemma DrawDistinct(choices: seq<Cell>, n: int, rng: Rng)
    requires n <= |choices| && Distinct(choices)
    ensures Distinct(Draw(choices, n, rng).0)
    ensures forall c :: c in Draw(choices, n, rng).0 ==> c in choices
  {
    var drawn := Draw(choices, n, rng).0;
    DistinctCounts(choices);
    forall c ensures multiset(drawn)[c] <= 1 {
      assert multiset(drawn)[c] <= multiset(choices)[c];
    }
    DistinctCounts(drawn);
    forall c | c in drawn ensures c in choices {
      assert multiset(drawn)[c] <= multiset(choices)[c];
    }
  }

  // ---------------------------------------------------------------------------
  // Sorting by path position

  /** `List.IndexOf`: the first index of the cell, or -1. */
  function IndexOf(path: seq<Cell>, c: Cell): (i: int)
    ensures -1 <= i < |path|
    ensures i == -1 <==> c !in path
    ensures i >= 0 ==> path[i] == c && c !in path[..i]
    decreases |path|
  {
    if |path| == 0 then -1
    else if path[0] == c then 0
    else
      var i := IndexOf(path[1..], c);
      if i == -1 then -1
      else
        assert path[..i + 1] == [path[0]] + path[1..][..i];
        i + 1
  }

  /** Each cell's key no greater than the next cell's. */
  predicate SortedBy(key: Cell -> int, s: seq<Cell>) {
    forall i :: 0 < i < |s| ==> key(s[i - 1]) <= key(s[i])
  }

  /** One cell put into a sorted list, ahead of the first cell whose key is not smaller. */
  function Insert(key: Cell -> int, c: Cell, s: seq<Cell>): (r: seq<Cell>)
    requires SortedBy(key, s)
    ensures SortedBy(key, r)
    ensures multiset(r) == multiset(s) + multiset{c}
    ensures |r| == |s| + 1 && (r[0] == c || (|s| > 0 && r[0] == s[0]))
    decreases |s|
  {
    if |s| == 0 then [c]
    else if key(c) <= key(s[0]) then
      ConsSorted(key, c, s);
      [c] + s
    else
      assert s == [s[0]] + s[1..];
      var rest := Insert(key, c, s[1..]);
      ConsSorted(key, s[0], rest);
      [s[0]] + rest
  }

  /** A cell no later than the head of a sorted list keeps it sorted when put in front. */
  lemma ConsSorted(key: Cell -> int, c: Cell, s: seq<Cell>)
    requires SortedBy(key, s) && (|s| > 0 ==> key(c) <= key(s[0]))
    ensures SortedBy(key, [c] + s)
  {
    var r := [c] + s;
    forall i | 0 < i < |r| ensures key(r[i - 1]) <= key(r[i]) {
      assert r[i] == s[i - 1];
    }
  }

  /** The sort: a permutation of the cells in key order. */
  function Sort(key: Cell -> int, s: seq<Cell>): (r: seq<Cell>)
    ensures SortedBy(key, r)
    ensures multiset(r) == multiset(s)
    decreases |s|
  {
    if |s| == 0 then []
    else
      assert s == [s[0]] + s[1..];
      Insert(key, s[0], Sort(key, s[1..]))
  }

  /** The comparison `targetCells.Sort` uses: a cell's first index along the path. */
  function PathOrder(path: seq<Cell>): Cell -> int {
    c => IndexOf(path, c)
  }

  /** A path cell outside the first and last three has an index in between. */
  lemma InsideEnds(path: seq<Cell>, c: Cell)
    requires c in path && c !in Head(path) && c !in Tail(path)
    ensures 3 <= IndexOf(path, c) < |path| - 3
  {
  }

  /** Keys that rise from each cell to the next rise along the whole list. */
  lemma {:induction false} RisingEverywhere(key: Cell -> int, s: seq<Cell>)
    requires forall i :: 0 < i < |s| ==> key(s[i - 1]) < key(s[i])
    ensures forall i, j :: 0 <= i < j < |s| ==> key(s[i]) < key(s[j])
    decreases |s|
  {
    if |s| > 1 {
      var t := s[..|s| - 1];
      assert forall i :: 0 <= i < |t| ==> t[i] == s[i];
      RisingEverywhere(key, t);
      forall i | 0 <= i < |s| - 1 ensures key(s[i]) < key(s[|s| - 1]) {
        if i < |s| - 2 {
          assert key(t[i]) < key(t[|t| - 1]);
        }
      }
    }
  }

  /** Different path cells have different first indices. */
  lemma IndexOfInjective(path: seq<Cell>, a: Cell, b: Cell)
    requires a in path && b in path && a != b
    ensures IndexOf(path, a) != IndexOf(path, b)
  {
  }

  /** Sorted distinct path cells have strictly increasing indices. */
  lemma SortedStrictly(path: seq<Cell>, s: seq<Cell>)
    requires SortedBy(PathOrder(path), s) && Distinct(s)
    requires forall c :: c in s ==> c in path
    ensures forall i, j :: 0 <= i < j < |s| ==> IndexOf(path, s[i]) < IndexOf(path, s[j])
  {
    var key := PathOrder(path);
    forall i | 0 < i < |s| ensures key(s[i - 1]) < key(s[i]) {
      assert s[i - 1] != s[i];
      IndexOfInjective(path, s[i - 1], s[i]);
    }
    RisingEverywhere(key, s);
  }

  // ---------------------------------------------------------------------------
  // The selection

  /** `targetCells`: from the floor cells (in the `Floors` tracker's enumeration order) and the
      path, `min(requested, candidates)` candidates drawn and sorted by path index. `requested`
      stands for the rounded product of the floor count and the drawn enemy population. */
  function ChooseEnemyCells(floors: seq<Cell>, path: seq<Cell>, requested: int, rng: Rng): (r: (seq<Cell>, Rng))
    requires Distinct(floors)
    ensures |r.0| == Rects.Max(0, Rects.Min(requested, |Candidates(floors, path)|))
    ensures Distinct(r.0)
    ensures forall c :: c in r.0 ==> c in floors && c !in Head(path) && c !in Tail(path)
    ensures SortedBy(PathOrder(path), r.0)
  {
    var choices := Candidates(floors, path);
    var (drawn, rng') := Draw(choices, Rects.Min(requested, |choices|), rng);
    DrawDistinct(choices, Rects.Min(requested, |choices|), rng);
    var sorted := Sort(PathOrder(path), drawn);
    SameCountsDistinct(drawn, sorted);
    assert forall c :: c in sorted ==> c in drawn by {
      forall c | c in sorted ensures c in drawn {
        assert c in multiset(sorted);
      }
    }
    assert |sorted| == |multiset(sorted)| == |drawn|;
    (sorted, rng')
  }

  /** On the corridor, whose floors are its own cells, the chosen cells are path cells other
      than the first and last three, each once, in strictly increasing path order: distinct
      cells have distinct indices, so the order the unstable library sort gives is unique. */
  lemma ChosenCellsAlongPath(floors: seq<Cell>, path: seq<Cell>, requested: int, rng: Rng)
    requires Distinct(floors) && forall c :: c in floors ==> c in path
    ensures var cells := ChooseEnemyCells(floors, path, requested, rng).0;
      forall i, j :: 0 <= i < j < |cells| ==> 3 <= IndexOf(path, cells[i]) < IndexOf(path, cells[j]) < |path| - 3
  {
    var cells := ChooseEnemyCells(floors, path, requested, rng).0;
    SortedStrictly(path, cells);
    forall i | 0 <= i < |cells| ensures 3 <= IndexOf(path, cells[i]) < |path| - 3 {
      InsideEnds(path, cells[i]);
    }
  }

  // ---------------------------------------------------------------------------
  // Spawning

  /** `Defs.enemyTypeCount`: the number of enemy kinds. */
  const EnemyTypeCount: nat := 3

  /** The cast `(EnemyType)n`. */
  function TypeFromOrdinal(n: nat): EnemyType
    requires n < EnemyTypeCount
  {
    if n == 0 then Magic else if n == 1 then Melee else Flying
  }

  /** The spawning loop: for each target cell in turn, a drawn kind, and `CreateEnemy`
      recording the enemy at the cell (`AddEnemyAtCell` throws on an occupied cell). The enemy
      objects' pooling is left to the `Enemies` tracker; `nextId` identifies the enemies. */
  function Spawn(d: DungeonModel, cells: seq<Cell>, rng: Rng, nextId: nat): (r: W.Result<(DungeonModel, Rng)>)
    ensures r.Success? ==> r.value.1 == Rng(rng.source, rng.pos + |cells|)
    ensures r.Success? ==> GetEnemyCount(r.value.0) == GetEnemyCount(d) + |cells|
    ensures r.Success? ==> r.value.0.(enemies := d.enemies) == d
    ensures r.Failure? ==> exists i :: 0 <= i < |cells| && Clashes(d, cells, i)
    decreases |cells|
  {
    if |cells| == 0 then W.Success((d, rng))
    else
      var (k, rng1) := NextBelow(rng, EnemyTypeCount);
      match AddEnemyAtCell(d, cells[0], Enemy(nextId, TypeFromOrdinal(k)))
      case Failure(e) =>
        assert Clashes(d, cells, 0);
        W.Failure(e)
      case Success(d1) =>
        var r1 := Spawn(d1, cells[1..], rng1, nextId + 1);
        if r1.Failure? then
          var j :| 0 <= j < |cells| - 1 && Clashes(d1, cells[1..], j);
          ClashShifts(d, d1, cells, j, Enemy(nextId, TypeFromOrdinal(k)));
          r1
        else
          r1
  }

  /** Spawning at the `i`-th cell throws: an enemy stands there already, before spawning or
      placed earlier in the same list. */
  predicate Clashes(d: DungeonModel, cells: seq<Cell>, i: int)
    requires 0 <= i < |cells|
  {
    HasEnemyAtCell(d, cells[i]) || cells[i] in cells[..i]
  }

  /** A clash after the first enemy is placed is a clash one place further along the whole list. */
  lemma ClashShifts(d: DungeonModel, d1: DungeonModel, cells: seq<Cell>, j: int, e: Enemy)
    requires 0 <= j < |cells| - 1
    requires AddEnemyAtCell(d, cells[0], e) == W.Success(d1)
    requires Clashes(d1, cells[1..], j)
    ensures Clashes(d, cells, j + 1)
  {
    if cells[j + 1] == cells[0] {
      assert cells[0] == cells[..j + 1][0];
    } else if HasEnemyAtCell(d1, cells[1..][j]) {
      assert GetEnemyAtCell(d1, cells[j + 1]) == GetEnemyAtCell(d, cells[j + 1]);
    } else {
      var t :| t in cells[1..][..j] && t == cells[j + 1];
      assert cells[1..][..j] == cells[..j + 1][1..];
    }
  }

  /** Distinct free cells all receive an enemy: spawning succeeds, the enemy count rises by the
      number of cells, and each of them has an enemy. */
  lemma {:induction false} SpawnFills(d: DungeonModel, cells: seq<Cell>, rng: Rng, nextId: nat)
    requires Distinct(cells) && forall c :: c in cells ==> !HasEnemyAtCell(d, c)
    ensures Spawn(d, cells, rng, nextId).Success?
    ensures GetEnemyCount(Spawn(d, cells, rng, nextId).value.0) == GetEnemyCount(d) + |cells|
    ensures forall c :: c in cells ==> HasEnemyAtCell(Spawn(d, cells, rng, nextId).value.0, c)
    decreases |cells|
  {
    if |cells| > 0 {
      var (k, rng1) := NextBelow(rng, EnemyTypeCount);
      var d1 := AddEnemyAtCell(d, cells[0], Enemy(nextId, TypeFromOrdinal(k))).value;
      assert Distinct(cells[1..]) by {
        forall i, j | 0 <= i < j < |cells| - 1 ensures cells[1..][i] != cells[1..][j] {
          assert cells[i + 1] != cells[j + 1];
        }
      }
      forall c | c in cells[1..] ensures !HasEnemyAtCell(d1, c) {
        var j :| 0 <= j < |cells| - 1 && cells[1..][j] == c;
        assert cells[0] != cells[j + 1];
        assert GetEnemyAtCell(d1, c) == GetEnemyAtCell(d, c);
      }
      SpawnFills(d1, cells[1..], rng1, nextId + 1);
      var d2 := Spawn(d1, cells[1..], rng1, nextId + 1).value.0;
      assert cells[0] in d1.enemies;
      assert HasEnemyAtCell(d2, cells[0]) by {
        SpawnKeeps(d1, cells[1..], rng1, nextId + 1, cells[0]);
      }
    }
  }

  /** Spawning never removes an enemy. */
  lemma {:induction false} SpawnKeeps(d: DungeonModel, cells: seq<Cell>, rng: Rng, nextId: nat, c: Cell)
    requires HasEnemyAtCell(d, c) && Spawn(d, cells, rng, nextId).Success?
    ensures HasEnemyAtCell(Spawn(d, cells, rng, nextId).value.0, c)
    decreases |cells|
  {
    if |cells| > 0 {
      var (k, rng1) := NextBelow(rng, EnemyTypeCount);
      var d1 := AddEnemyAtCell(d, cells[0], Enemy(nextId, TypeFromOrdinal(k))).value;
      assert HasEnemyAtCell(d1, c);
      SpawnKeeps(d1, cells[1..], rng1, nextId + 1, c);
    }
  }
}
