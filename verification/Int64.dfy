/** Go's `int` on a 64-bit machine: signed, two's complement, wrapping. */
module Int64 {

  const TWO_63: int := 0x8000_0000_0000_0000
  const TWO_64: int := 0x1_0000_0000_0000_0000

  type Id = x: int | -TWO_63 <= x < TWO_63

  /** The value a 64-bit register holds after computing `x`. */
  function Wrap(x: int): Id {
    (x + TWO_63) % TWO_64 - TWO_63
  }

  /** Unbounded distance between two ids. */
  function Dist(a: int, b: int): nat {
    if a <= b then b - a else a - b
  }

  lemma WrapOfDifference(d: int)
    requires 0 < d < TWO_64
    ensures Wrap(d) == if d < TWO_63 then d else d - TWO_64
  {
    if d < TWO_63 {
      assert (d + TWO_63) % TWO_64 == d + TWO_63;
    } else {
      assert d + TWO_63 == TWO_64 + (d - TWO_63);
      assert (d + TWO_63) % TWO_64 == d - TWO_63;
    }
  }
}
