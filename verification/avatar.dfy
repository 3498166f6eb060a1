/** `AvatarModel`: the player's position along the path, health and kill count. */
module Avatar {
  /** `MaxHealth`, fixed by the constructor. */
  const MaxHealth: int := 5

  datatype AvatarModel = AvatarModel(currentCellIndex: int, maxHealth: int, currentHealth: int, killCount: int)

  /** The constructor: full health, no kills, at the first path cell. */
  function New(): (a: AvatarModel)
    ensures a.maxHealth == MaxHealth && a.currentHealth == a.maxHealth
    ensures a.killCount == 0 && a.currentCellIndex == 0
    ensures IsAlive(a)
  {
    AvatarModel(0, MaxHealth, MaxHealth, 0)
  }

  /** `IsAlive`: health left. */
  predicate IsAlive(a: AvatarModel) {
    a.currentHealth > 0
  }

  /** `TakeDamage(amount)`: health falls by the amount, with no floor at zero; nothing else
      changes. The caller's default amount is one. */
  function TakeDamage(a: AvatarModel, amount: int): (r: AvatarModel)
    ensures r.currentHealth == a.currentHealth - amount
    ensures r.(currentHealth := a.currentHealth) == a
  {
    a.(currentHealth := a.currentHealth - amount)
  }

  /** `n` hits of the default amount. */
  function TakeHits(a: AvatarModel, n: nat): (r: AvatarModel)
    decreases n
  {
    if n == 0 then a else TakeHits(TakeDamage(a, 1), n - 1)
  }

  /** A new avatar survives fewer than `MaxHealth` hits and no more: the fifth one-point hit is
      the last. Position and kills are untouched by damage. */
  lemma {:induction false} HitsToDeath(a: AvatarModel, n: nat)
    ensures TakeHits(a, n).currentHealth == a.currentHealth - n
    ensures TakeHits(a, n).(currentHealth := a.currentHealth) == a
    ensures a == New() ==> (IsAlive(TakeHits(a, n)) <==> n < MaxHealth)
    decreases n
  {
    if n > 0 {
      HitsToDeath(TakeDamage(a, 1), n - 1);
    }
  }

  /** The `CurrentCellIndex` setter. */
  function SetCurrentCellIndex(a: AvatarModel, index: int): (r: AvatarModel)
    ensures r.currentCellIndex == index
    ensures r.(currentCellIndex := a.currentCellIndex) == a
  {
    a.(currentCellIndex := index)
  }
}
