/** `RandomNumberProvider`: a seeded stream of draws. The generator itself is outside the model;
    it is an arbitrary stream `source` of natural numbers read from position `pos`, so every
    property proved here holds whatever numbers the generator produces. */
module Random {

  datatype Rng = Rng(source: nat -> nat, pos: nat)

  /** The raw draw at the current position of the stream. */
  function Raw(rng: Rng): nat {
    rng.source(rng.pos)
  }

  /** The stream after one draw. */
  function Advance(rng: Rng): (r: Rng)
    ensures r.source == rng.source && r.pos == rng.pos + 1
  {
    Rng(rng.source, rng.pos + 1)
  }

  /** `Next(minValue, maxValue)` of `System.Random`: a value in `[lo, hi)`, or `lo` when the
      range is empty. The library throws when `lo > hi`, so callers must not ask for that. */
  function NextRange(rng: Rng, lo: int, hi: int): (r: (int, Rng))
    requires lo <= hi
    ensures lo == hi ==> r.0 == lo
    ensures lo < hi ==> lo <= r.0 < hi
    ensures r.1 == Advance(rng)
  {
    if lo == hi then (lo, Advance(rng)) else (lo + Raw(rng) % (hi - lo), Advance(rng))
  }

  /** `Next(maxValue)`: a value in `[0, n)`, or 0 when `n` is 0. */
  function NextBelow(rng: Rng, n: nat): (r: (nat, Rng))
    ensures n == 0 ==> r.0 == 0
    ensures n > 0 ==> r.0 < n
    ensures r.1 == Advance(rng)
  {
    var (v, rng') := NextRange(rng, 0, n);
    (v, rng')
  }

  /** `NextBool`: a fair coin taken from one draw. */
  function NextBool(rng: Rng): (r: (bool, Rng))
    ensures r.1 == Advance(rng)
    ensures r.0 <==> Raw(rng) % 2 == 0
  {
    (Raw(rng) % 2 == 0, Advance(rng))
  }

  /** `Pick(list)`: an element of a non-empty list chosen by one draw. */
  function Pick<T>(rng: Rng, s: seq<T>): (r: (T, Rng))
    requires |s| > 0
    ensures r.0 in s
    ensures r.1 == Advance(rng)
  {
    var (i, rng') := NextBelow(rng, |s|);
    (s[i], rng')
  }

  /** Every value of a non-empty range is drawn by some stream: the model of the generator
      does not rule out any outcome the library could produce. */
  lemma EveryValueReachable(lo: int, hi: int, v: int)
    requires lo <= v < hi
    ensures exists rng: Rng :: NextRange(rng, lo, hi).0 == v
  {
    var rng := Rng(_ => (v - lo) as nat, 0);
    assert Raw(rng) == v - lo;
    assert (v - lo) % (hi - lo) == v - lo;
    assert NextRange(rng, lo, hi).0 == v;
  }
}
