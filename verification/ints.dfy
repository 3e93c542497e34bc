/** Java's 32-bit two's-complement `int`. */
module Ints {

  const MinInt: int := -0x8000_0000
  const MaxInt: int := 0x7FFF_FFFF

  /** The values a Java `int` can hold. */
  type Int32 = x: int | MinInt <= x <= MaxInt

  /** The `int` that Java's wrapping arithmetic yields for the mathematical value `x`. */
  function Wrap(x: int): (r: Int32)
    ensures (r - x) % 0x1_0000_0000 == 0
  {
    (x - MinInt) % 0x1_0000_0000 + MinInt
  }

  /** Adding a multiple of 2^32 does not change the wrapped value. */
  lemma WrapShift(x: int, q: int)
    ensures Wrap(x + q * 0x1_0000_0000) == Wrap(x)
  {
    var m := 0x1_0000_0000;
    var y := x - MinInt;
    assert y == (y / m) * m + y % m;
    assert y + q * m == (y / m + q) * m + y % m;
  }

  /**
   * Wrapping an intermediate result and then adding gives the same `int` as
   * adding first and wrapping once, so a Java expression that overflows part way
   * through still ends at the wrapped value of the whole sum.
   */
  lemma WrapAdd(a: int, b: int)
    ensures Wrap(Wrap(a) + b) == Wrap(a + b)
  {
    var m := 0x1_0000_0000;
    var q := (a - MinInt) / m;
    assert a - MinInt == q * m + (a - MinInt) % m;
    assert Wrap(a) + b == (a + b) + (-q) * m;
    WrapShift(a + b, -q);
  }

  /** Arithmetic that stays within the `int` range does not wrap. */
  lemma WrapInRange(x: int)
    requires MinInt <= x <= MaxInt
    ensures Wrap(x) == x
  {
  }
}
