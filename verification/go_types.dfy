/**
 The machine types of the Go source that the revision code relies on: `byte`
 and the two's-complement `int64`, whose arithmetic silently wraps around.
 Dafny integers are unbounded, so the wrap is written out as `Wrap64`.
 */
module GoTypes {

  /** Go's `byte` (`uint8`). */
  newtype byte = b: int | 0 <= b < 256

  const Int64Min: int := -0x8000_0000_0000_0000
  const Int64Max: int := 0x7FFF_FFFF_FFFF_FFFF
  const TwoTo64: int := 0x1_0000_0000_0000_0000

  /** Go's `int64`. */
  newtype int64 = x: int | -0x8000_0000_0000_0000 <= x < 0x8000_0000_0000_0000

  /** The value Go's `int64` arithmetic produces for the mathematical result `x`:
      the unique `int64` congruent to `x` modulo 2^64. */
  function Wrap64(x: int): (r: int64)
    ensures (r as int - x) % TwoTo64 == 0
    ensures Int64Min <= x <= Int64Max ==> r as int == x
  {
    ((x - Int64Min) % TwoTo64 + Int64Min) as int64
  }

  /** Wrapping only depends on the residue modulo 2^64, so Go may wrap after
      every operation or once at the end and get the same `int64`. */
  lemma WrapCongruent(x: int, y: int)
    requires (x - y) % TwoTo64 == 0
    ensures Wrap64(x) == Wrap64(y)
  {
    var m := (x - y) / TwoTo64;
    assert x - Int64Min == (y - Int64Min) + TwoTo64 * m;
    ModShift(y - Int64Min, m);
  }

  /** Adding a multiple of 2^64 leaves the residue unchanged. */
  lemma ModShift(u: int, m: int)
    ensures (u + TwoTo64 * m) % TwoTo64 == u % TwoTo64
  {
    var q, r := u / TwoTo64, u % TwoTo64;
    assert u + TwoTo64 * m == TwoTo64 * (q + m) + r;
  }
}
