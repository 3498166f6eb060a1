/** `ObjectPool<T>`: a stack of recycled objects kept as a linked free list of entries, with a
    separately maintained `Count`. */
module Pool {
  import opened Wrappers

  /** The chain of `Entry` objects starting at `m_nextAvailable`, linked through `next`. */
  datatype Chain<T> = End | Link(entity: T, next: Chain<T>)

  datatype ObjectPool<T> = ObjectPool(nextAvailable: Chain<T>, count: int)

  function Length<T>(c: Chain<T>): nat {
    match c
    case End => 0
    case Link(_, next) => 1 + Length(next)
  }

  /** The pooled objects, the next one to be handed out first. */
  function Items<T>(c: Chain<T>): (s: seq<T>)
    ensures |s| == Length(c)
    ensures c.Link? ==> s[0] == c.entity
  {
    match c
    case End => []
    case Link(e, next) => [e] + Items(next)
  }

  /** `Count` is the length of the free list. */
  predicate Valid<T>(p: ObjectPool<T>) {
    p.count == Length(p.nextAvailable)
  }

  /** A new pool: no entries and a zero count. */
  function Empty<T>(): (p: ObjectPool<T>)
    ensures Valid(p) && p.count == 0 && Items(p.nextAvailable) == []
  {
    ObjectPool(End, 0)
  }

  /** `Add`: the entity becomes the head of the free list and `Count` goes up by one; the
      next `TryGet` hands it back and restores the pool. */
  function Add<T>(p: ObjectPool<T>, e: T): (r: ObjectPool<T>)
    ensures r.count == p.count + 1
    ensures Items(r.nextAvailable) == [e] + Items(p.nextAvailable)
    ensures Valid(p) ==> Valid(r)
    ensures TryGet(r) == (Some(e), p)
  {
    ObjectPool(Link(e, p.nextAvailable), p.count + 1)
  }

  /** `TryGet`: the head of the free list, removed, with `Count` down by one; on an empty list
      `default` (here `None`) and the pool unchanged. */
  function TryGet<T>(p: ObjectPool<T>): (r: (Option<T>, ObjectPool<T>))
    ensures r.0.None? <==> Items(p.nextAvailable) == []
    ensures r.0.None? ==> r.1 == p
    ensures r.0.Some? ==> [r.0.value] + Items(r.1.nextAvailable) == Items(p.nextAvailable)
    ensures r.0.Some? ==> r.1.count == p.count - 1
    ensures Valid(p) ==> Valid(r.1)
  {
    match p.nextAvailable
    case End => (None, p)
    case Link(e, next) => (Some(e), ObjectPool(next, p.count - 1))
  }

  /** A call on the pool: `Add(e)` or `TryGet()`. */
  datatype Call<T> = AddCall(e: T) | TryGetCall

  function Run<T>(p: ObjectPool<T>, calls: seq<Call<T>>): ObjectPool<T>
    decreases |calls|
  {
    if |calls| == 0 then p
    else
      var next := match calls[0]
        case AddCall(e) => Add(p, e)
        case TryGetCall => TryGet(p).1;
      Run(next, calls[1..])
  }

  /** Starting from a new pool, `Count` equals the length of the free list after any sequence of
      calls, and is therefore never negative. */
  lemma {:induction false} CountIsLength<T>(p: ObjectPool<T>, calls: seq<Call<T>>)
    requires Valid(p)
    ensures Valid(Run(p, calls))
    ensures Run(p, calls).count >= 0
    decreases |calls|
  {
    if |calls| > 0 {
      var next := match calls[0]
        case AddCall(e) => Add(p, e)
        case TryGetCall => TryGet(p).1;
      assert Valid(next);
      CountIsLength(next, calls[1..]);
    }
  }
}

/** `DungeonEntityTracker`: the scene objects of one kind that are shown, by cell, and a pool of
    hidden ones ready for reuse. */
module Trackers {
  import opened Grid
  import W = Wrappers
  import opened Pool

  /** A pooled scene object; of its state only the `SetActive` flag is modelled. */
  datatype Entity = Entity(id: nat, active: bool)

  /** One entry of `activeEntities`. */
  datatype Slot = Slot(cell: Cell, entity: Entity)

  /** The dictionary `activeEntities` as its entries in enumeration order, and `entityPool`. */
  datatype Tracker = Tracker(activeEntities: seq<Slot>, entityPool: ObjectPool<Entity>)

  /** The keys of the entries, in order. */
  function Keys(s: seq<Slot>): (ks: seq<Cell>)
    ensures |ks| == |s|
    ensures forall i :: 0 <= i < |s| ==> ks[i] == s[i].cell
  {
    seq(|s|, i requires 0 <= i < |s| => s[i].cell)
  }

  /** The dictionary the entries stand for. */
  function View(s: seq<Slot>): map<Cell, Entity>
    decreases |s|
  {
    if |s| == 0 then map[] else View(s[1..])[s[0].cell := s[0].entity]
  }

  /** A dictionary holds each key once, and its pool keeps `Count` in step with the free list. */
  predicate Valid(t: Tracker) {
    Distinct(Keys(t.activeEntities)) && Pool.Valid(t.entityPool)
  }

  lemma {:induction false} ViewHas(s: seq<Slot>, c: Cell)
    ensures c in View(s) <==> c in Keys(s)
    decreases |s|
  {
    if |s| > 0 {
      ViewHas(s[1..], c);
      assert Keys(s) == [s[0].cell] + Keys(s[1..]);
    }
  }

  /** `Count`: the number of entries is the size of the dictionary. */
  lemma {:induction false} ViewSize(s: seq<Slot>)
    requires Distinct(Keys(s))
    ensures |View(s)| == |s|
    decreases |s|
  {
    if |s| > 0 {
      assert Keys(s[1..]) == Keys(s)[1..];
      ViewSize(s[1..]);
      ViewHas(s[1..], s[0].cell);
      assert s[0].cell !in Keys(s[1..]) by {
        forall j | 0 <= j < |s| - 1 ensures Keys(s[1..])[j] != s[0].cell {
          assert Keys(s)[0] != Keys(s)[j + 1];
        }
      }
    }
  }

  /** Appending an entry for a new key adds that key to the dictionary. */
  lemma {:induction false} ViewSnoc(s: seq<Slot>, x: Slot)
    requires x.cell !in Keys(s)
    ensures View(s + [x]) == View(s)[x.cell := x.entity]
    decreases |s|
  {
    if |s| == 0 {
      assert s + [x] == [x];
    } else {
      assert (s + [x])[1..] == s[1..] + [x];
      assert Keys(s) == [s[0].cell] + Keys(s[1..]);
      ViewSnoc(s[1..], x);
    }
  }

  /** A new tracker: nothing shown and an empty pool. */
  function New(): (t: Tracker)
    ensures Valid(t) && View(t.activeEntities) == map[] && Count(t) == 0
  {
    Tracker([], Pool.Empty())
  }

  /** `Contains`: the cell has a shown entity. */
  function Contains(t: Tracker, c: Cell): (r: bool)
    ensures r <==> c in View(t.activeEntities)
  {
    ViewHas(t.activeEntities, c);
    c in Keys(t.activeEntities)
  }

  /** `Count`: the number of shown entities, which is the size of the dictionary. */
  function Count(t: Tracker): (n: nat)
    ensures Valid(t) ==> n == |View(t.activeEntities)|
  {
    if Valid(t) then ViewSize(t.activeEntities); |t.activeEntities|
    else |t.activeEntities|
  }

  /** `AddToCell`: the entity is shown and recorded at the cell. `Dictionary.Add` throws when
      the cell already has an entity. */
  function AddToCell(t: Tracker, c: Cell, e: Entity): (r: W.Result<Tracker>)
    ensures r.Failure? <==> Contains(t, c)
    ensures r.Success? ==> View(r.value.activeEntities) == View(t.activeEntities)[c := e.(active := true)]
    ensures r.Success? ==> r.value.entityPool == t.entityPool
    ensures r.Success? ==> Keys(r.value.activeEntities) == Keys(t.activeEntities) + [c]
    ensures r.Success? && Valid(t) ==> Valid(r.value) && Count(r.value) == Count(t) + 1
  {
    if Contains(t, c) then W.Failure("ArgumentException: an item with the same key has already been added")
    else
      var x := Slot(c, e.(active := true));
      ViewHas(t.activeEntities, c);
      ViewSnoc(t.activeEntities, x);
      var s := t.activeEntities + [x];
      assert Keys(s) == Keys(t.activeEntities) + [c];
      DistinctSnoc(Keys(t.activeEntities), c);
      W.Success(Tracker(s, t.entityPool))
  }

  lemma DistinctSnoc(s: seq<Cell>, c: Cell)
    requires c !in s
    ensures Distinct(s) ==> Distinct(s + [c])
  {
    if Distinct(s) {
      DistinctConcat(s, [c]);
    }
  }

  /** The entries without the one for `c`. */
  function Without(s: seq<Slot>, c: Cell): (r: seq<Slot>)
    ensures forall x :: x in r <==> x in s && x.cell != c
    decreases |s|
  {
    if |s| == 0 then []
    else if s[0].cell == c then Without(s[1..], c)
    else [s[0]] + Without(s[1..], c)
  }

  /** Removing the entries for a key removes exactly that key from the dictionary. */
  lemma {:induction false} WithoutView(s: seq<Slot>, c: Cell)
    ensures View(Without(s, c)) == View(s) - {c}
    decreases |s|
  {
    if |s| > 0 {
      WithoutView(s[1..], c);
      if s[0].cell != c {
        var w := Without(s[1..], c);
        assert ([s[0]] + w)[1..] == w;
        assert View([s[0]] + w) == View(w)[s[0].cell := s[0].entity];
        assert View(s) == View(s[1..])[s[0].cell := s[0].entity];
      }
    }
  }

  /** The keys left are those of the other entries, in order. */
  lemma {:induction false} WithoutKeys(s: seq<Slot>, c: Cell)
    ensures Keys(Without(s, c)) == Filter(Keys(s), c)
    decreases |s|
  {
    if |s| > 0 {
      assert Keys(s) == [s[0].cell] + Keys(s[1..]);
      assert Keys(s)[1..] == Keys(s[1..]);
      WithoutKeys(s[1..], c);
      if s[0].cell != c {
        var w := Without(s[1..], c);
        assert Keys([s[0]] + w) == [s[0].cell] + Keys(w);
      }
    }
  }

  /** The list without the occurrences of `c`. */
  function Filter(s: seq<Cell>, c: Cell): (r: seq<Cell>)
    ensures forall x :: x in r <==> x in s && x != c
    decreases |s|
  {
    if |s| == 0 then []
    else if s[0] == c then Filter(s[1..], c)
    else [s[0]] + Filter(s[1..], c)
  }

  /** Filtering a list without repeats keeps it without repeats and drops one entry when `c` is
      in it. */
  lemma {:induction false} FilterDistinct(s: seq<Cell>, c: Cell)
    requires Distinct(s)
    ensures Distinct(Filter(s, c))
    ensures |Filter(s, c)| == if c in s then |s| - 1 else |s|
    decreases |s|
  {
    if |s| > 0 {
      assert Distinct(s[1..]) by {
        forall i, j | 0 <= i < j < |s| - 1 ensures s[1..][i] != s[1..][j] {
          assert s[i + 1] != s[j + 1];
        }
      }
      FilterDistinct(s[1..], c);
      assert s[0] !in s[1..] by {
        forall j | 0 <= j < |s| - 1 ensures s[1..][j] != s[0] {
          assert s[0] != s[j + 1];
        }
      }
      if s[0] != c {
        DistinctConcat([s[0]], Filter(s[1..], c));
      }
    }
  }

  /** `RemoveFromCell`: when the cell has an entity, the entity is hidden and pushed onto the
      pool and the cell forgotten; the answer says whether there was one. */
  function RemoveFromCell(t: Tracker, c: Cell): (r: (bool, Tracker))
    requires Valid(t)
    ensures r.0 <==> Contains(t, c)
    ensures !r.0 ==> r.1 == t
    ensures r.0 ==> View(r.1.activeEntities) == View(t.activeEntities) - {c}
    ensures r.0 ==> r.1.entityPool == Add(t.entityPool, View(t.activeEntities)[c].(active := false))
    ensures Valid(r.1)
    ensures r.0 ==> Count(r.1) == Count(t) - 1
  {
    if !Contains(t, c) then (false, t)
    else
      var e := View(t.activeEntities)[c];
      WithoutView(t.activeEntities, c);
      WithoutKeys(t.activeEntities, c);
      FilterDistinct(Keys(t.activeEntities), c);
      ViewHas(t.activeEntities, c);
      (true, Tracker(Without(t.activeEntities, c), Add(t.entityPool, e.(active := false))))
  }

  /** The entities of the entries, hidden, pushed onto the pool in enumeration order. */
  function PushAll(p: ObjectPool<Entity>, s: seq<Slot>): (r: ObjectPool<Entity>)
    ensures r.count == p.count + |s|
    ensures multiset(Items(r.nextAvailable)) == multiset(Items(p.nextAvailable)) + multiset(Hidden(s))
    ensures Pool.Valid(p) ==> Pool.Valid(r)
    decreases |s|
  {
    if |s| == 0 then p
    else
      var r := PushAll(Add(p, s[0].entity.(active := false)), s[1..]);
      assert Hidden(s) == [s[0].entity.(active := false)] + Hidden(s[1..]);
      r
  }

  /** The entities of the entries with their flag cleared. */
  function Hidden(s: seq<Slot>): (es: seq<Entity>)
    ensures |es| == |s|
    ensures forall i :: 0 <= i < |s| ==> es[i] == s[i].entity.(active := false)
  {
    seq(|s|, i requires 0 <= i < |s| => s[i].entity.(active := false))
  }

  /** The tracker shows nothing any more and its pool grew by what it showed. */
  predicate Emptied(before: Tracker, after: Tracker) {
    Count(after) == 0 && after.entityPool.count == before.entityPool.count + Count(before)
  }

  /** `RemoveAll`: every shown entity is hidden and pooled and the dictionary cleared, so the pool
      grows by the previous `Count`. */
  function RemoveAll(t: Tracker): (r: Tracker)
    ensures View(r.activeEntities) == map[]
    ensures Emptied(t, r)
    ensures multiset(Items(r.entityPool.nextAvailable))
         == multiset(Items(t.entityPool.nextAvailable)) + multiset(Hidden(t.activeEntities))
    ensures Valid(t) ==> Valid(r)
  {
    Tracker([], PushAll(t.entityPool, t.activeEntities))
  }

  /** `TryGetNext`: the most recently pooled entity, taken off the pool, or none. */
  function TryGetNext(t: Tracker): (r: (W.Option<Entity>, Tracker))
    ensures r.1.activeEntities == t.activeEntities
    ensures (r.0, r.1.entityPool) == TryGet(t.entityPool)
  {
    var (e, p) := TryGet(t.entityPool);
    (e, t.(entityPool := p))
  }

  /** Showing an entity at a free cell and then removing it restores the shown set and leaves the
      entity, hidden, at the head of the pool, where `TryGetNext` finds it again. */
  lemma AddThenRemove(t: Tracker, c: Cell, e: Entity)
    requires Valid(t) && !Contains(t, c)
    ensures AddToCell(t, c, e).Success?
    ensures RemoveFromCell(AddToCell(t, c, e).value, c).0
    ensures View(RemoveFromCell(AddToCell(t, c, e).value, c).1.activeEntities) == View(t.activeEntities)
    ensures TryGetNext(RemoveFromCell(AddToCell(t, c, e).value, c).1).0 == W.Some(e.(active := false))
  {
    var t1 := AddToCell(t, c, e).value;
    assert View(t1.activeEntities)[c] == e.(active := true);
    assert View(t.activeEntities)[c := e.(active := true)] - {c} == View(t.activeEntities);
  }
}

/** `DungeonModel`: the player's path, the enemies by cell and one tracker per kind of scene
    object. */
module Dungeons {
  import opened Grid
  import W = Wrappers
  import opened Trackers

  /** The three kinds of enemy the game spawns. */
  datatype EnemyType = Magic | Melee | Flying

  /** An `Enemy` component: which kind it is, and an identity. */
  datatype Enemy = Enemy(id: nat, kind: EnemyType)

  datatype DungeonModel = DungeonModel(
    enemies: map<Cell, Enemy>,
    path: seq<Cell>,
    braziers: Tracker,
    doors: Tracker,
    enemyObjects: Tracker,
    floors: Tracker,
    portals: Tracker,
    walls: Tracker)

  predicate Valid(d: DungeonModel) {
    && Trackers.Valid(d.braziers) && Trackers.Valid(d.doors) && Trackers.Valid(d.enemyObjects)
    && Trackers.Valid(d.floors) && Trackers.Valid(d.portals) && Trackers.Valid(d.walls)
  }

  /** A new model: no path, no enemies and six empty trackers. */
  function New(): (d: DungeonModel)
    ensures Valid(d) && d.path == [] && d.enemies == map[]
  {
    DungeonModel(map[], [], Trackers.New(), Trackers.New(), Trackers.New(), Trackers.New(),
      Trackers.New(), Trackers.New())
  }

  /** `Reset`: every tracker pools all of its entities, and the enemies and the path are cleared. */
  function Reset(d: DungeonModel): (r: DungeonModel)
    ensures r.path == [] && GetEnemyCount(r) == 0
    ensures Emptied(d.braziers, r.braziers) && Emptied(d.doors, r.doors)
    ensures Emptied(d.enemyObjects, r.enemyObjects) && Emptied(d.floors, r.floors)
    ensures Emptied(d.portals, r.portals) && Emptied(d.walls, r.walls)
    ensures Valid(d) ==> Valid(r)
  {
    DungeonModel(map[], [], RemoveAll(d.braziers), RemoveAll(d.doors), RemoveAll(d.enemyObjects),
      RemoveAll(d.floors), RemoveAll(d.portals), RemoveAll(d.walls))
  }

  /** `SetPath`: the cells are appended to the path already there; nothing else changes. */
  function SetPath(d: DungeonModel, p: seq<Cell>): (r: DungeonModel)
    ensures GetCellCount(r) == GetCellCount(d) + |p|
    ensures r.path[..|d.path|] == d.path && r.path[|d.path|..] == p
    ensures r.(path := d.path) == d
  {
    d.(path := d.path + p)
  }

  /** Appends one cell to the path. `DungeonBuilder` calls `AddToPath`, which `DungeonModel.cs`
      does not define; it is taken to be `SetPath` of that one cell. */
  function AddToPath(d: DungeonModel, c: Cell): (r: DungeonModel)
    ensures r.path == d.path + [c]
    ensures r.(path := d.path) == d
  {
    SetPath(d, [c])
  }

  /** `GetCellCount`: the length of the path. */
  function GetCellCount(d: DungeonModel): nat {
    |d.path|
  }

  /** `GetPathAtIndex`: the path cell at the index, or `Cell.Zero` past the end. A negative index
      passes the `index < Count` test and then makes `Path[index]` throw. */
  function GetPathAtIndex(d: DungeonModel, index: int): (r: W.Result<Cell>)
    ensures r.Failure? <==> index < 0
    ensures 0 <= index < |d.path| ==> r == W.Success(d.path[index])
    ensures index >= |d.path| ==> r == W.Success(Zero)
  {
    if index < |d.path| then
      if index < 0 then W.Failure("ArgumentOutOfRangeException: index") else W.Success(d.path[index])
    else W.Success(Zero)
  }

  /** Paths set one after the other read back, index by index, as their concatenation. */
  lemma SetPathTwice(d: DungeonModel, p: seq<Cell>, q: seq<Cell>, i: int)
    ensures SetPath(SetPath(d, p), q) == SetPath(d, p + q)
    ensures 0 <= i < |q| ==> GetPathAtIndex(SetPath(SetPath(d, p), q), |d.path| + |p| + i) == W.Success(q[i])
  {
    assert d.path + p + q == d.path + (p + q);
  }

  /** `GetEnemyCount`: the number of cells with an enemy. */
  function GetEnemyCount(d: DungeonModel): nat {
    |d.enemies|
  }

  /** `HasEnemyAtCell`. */
  predicate HasEnemyAtCell(d: DungeonModel, c: Cell) {
    c in d.enemies
  }

  /** `GetEnemyAtCell`: the enemy at the cell, when there is one. */
  function GetEnemyAtCell(d: DungeonModel, c: Cell): (r: W.Option<Enemy>)
    ensures r.Some? <==> HasEnemyAtCell(d, c)
    ensures r.Some? ==> r.value == d.enemies[c]
  {
    if c in d.enemies then W.Some(d.enemies[c]) else W.None
  }

  /** `AddEnemyAtCell`: the enemy is recorded at the cell and the count rises by one. Adding to a
      cell that has an enemy makes `Dictionary.Add` throw. */
  function AddEnemyAtCell(d: DungeonModel, c: Cell, e: Enemy): (r: W.Result<DungeonModel>)
    ensures r.Failure? <==> HasEnemyAtCell(d, c)
    ensures r.Success? ==> GetEnemyAtCell(r.value, c) == W.Some(e)
    ensures r.Success? ==> GetEnemyCount(r.value) == GetEnemyCount(d) + 1
    ensures r.Success? ==> forall c' :: c' != c ==> GetEnemyAtCell(r.value, c') == GetEnemyAtCell(d, c')
    ensures r.Success? ==> r.value.(enemies := d.enemies) == d
  {
    if c in d.enemies then W.Failure("ArgumentException: an item with the same key has already been added")
    else W.Success(d.(enemies := d.enemies[c := e]))
  }

  /** `RemoveEnemyAtCell`: the cell no longer has an enemy; the answer says whether it had one. */
  function RemoveEnemyAtCell(d: DungeonModel, c: Cell): (r: (bool, DungeonModel))
    ensures r.0 <==> HasEnemyAtCell(d, c)
    ensures !HasEnemyAtCell(r.1, c)
    ensures GetEnemyCount(r.1) == if r.0 then GetEnemyCount(d) - 1 else GetEnemyCount(d)
    ensures forall c' :: c' != c ==> GetEnemyAtCell(r.1, c') == GetEnemyAtCell(d, c')
    ensures r.1.(enemies := d.enemies) == d
  {
    (c in d.enemies, d.(enemies := d.enemies - {c}))
  }

  /** Adding an enemy and removing it again leaves the model as it was. */
  lemma AddThenRemoveEnemy(d: DungeonModel, c: Cell, e: Enemy)
    requires !HasEnemyAtCell(d, c)
    ensures AddEnemyAtCell(d, c, e).Success?
    ensures RemoveEnemyAtCell(AddEnemyAtCell(d, c, e).value, c) == (true, d)
  {
    assert d.enemies[c := e] - {c} == d.enemies;
  }
}
