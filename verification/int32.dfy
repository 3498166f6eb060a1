/** 32-bit two's-complement arithmetic as C# performs it in an unchecked context.
    Only the hash and comparison members of the grid types depend on it. */
module Int32 {

  const Modulus: int := 0x1_0000_0000
  const MinValue: int := -0x8000_0000
  const MaxValue: int := 0x7FFF_FFFF

  predicate InRange(v: int) {
    MinValue <= v <= MaxValue
  }

  /** Reduces an unbounded integer to the 32-bit value with the same low 32 bits. */
  function Wrap(v: int): (r: int)
    ensures InRange(r)
    ensures (r - v) % Modulus == 0
    ensures InRange(v) ==> r == v
  {
    (v - MinValue) % Modulus + MinValue
  }

  /** `v << 16` on an `int`: the bits shifted out of the top are lost. */
  function ShiftLeft16(v: int): (r: int)
    ensures InRange(r)
    ensures -0x8000 <= v < 0x8000 ==> r == v * 0x1_0000
  {
    Wrap(v * 0x1_0000)
  }
}
