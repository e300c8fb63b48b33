/** Java's 32-bit `int`: the range of `Integer` fields and the wrap-around of `+` and `-`
    on them. */
module JavaInt {

  const MIN_INT: int := -0x8000_0000
  const MAX_INT: int := 0x7fff_ffff
  const MODULUS: int := 0x1_0000_0000

  /** The values an `Integer` field can hold. */
  type Int32 = x: int | MIN_INT <= x <= MAX_INT

  /** Two's-complement truncation of a mathematical integer to 32 bits. */
  function Wrap(x: int): (r: Int32)
    ensures MIN_INT <= x <= MAX_INT ==> r == x
    ensures x - r == MODULUS * ((x - MIN_INT) / MODULUS)
  {
    (x - MIN_INT) % MODULUS + MIN_INT
  }

  /** Java `a + b` on two `int`s: the sum when it fits, otherwise the sum shifted into
      range by a multiple of 2^32. */
  function Add32(a: Int32, b: Int32): (r: Int32)
    ensures MIN_INT <= a + b <= MAX_INT ==> r == a + b
    ensures a + b > MAX_INT ==> r == a + b - MODULUS
    ensures a + b < MIN_INT ==> r == a + b + MODULUS
  {
    Wrap(a + b)
  }

  /** Java `a - b` on two `int`s: the difference when it fits, otherwise the difference
      shifted into range by a multiple of 2^32. */
  function Sub32(a: Int32, b: Int32): (r: Int32)
    ensures MIN_INT <= a - b <= MAX_INT ==> r == a - b
    ensures a - b > MAX_INT ==> r == a - b - MODULUS
    ensures a - b < MIN_INT ==> r == a - b + MODULUS
  {
    Wrap(a - b)
  }

  /** Wrapping is the identity exactly on the 32-bit range. */
  lemma WrapFixesExactlyInt32(x: int)
    ensures Wrap(x) == x <==> MIN_INT <= x <= MAX_INT
  {
  }

  /** Two integers that differ by a multiple of 2^32 wrap to the same value. */
  lemma WrapCongruent(x: int, y: int, k: int)
    requires x - y == MODULUS * k
    ensures Wrap(x) == Wrap(y)
  {
    var qx, qy := (x - MIN_INT) / MODULUS, (y - MIN_INT) / MODULUS;
    var rx, ry := Wrap(x) - MIN_INT, Wrap(y) - MIN_INT;
    assert x - MIN_INT == MODULUS * qx + rx;
    assert y - MIN_INT == MODULUS * qy + ry;
    assert rx - ry == MODULUS * (k - qx + qy);
  }

  /** Wrapping an intermediate result of a sum does not change the wrapped total:
      `a + (b - c)` computed in `int` arithmetic is the mathematical value, wrapped. */
  lemma AddOfWrap(a: int, x: int)
    ensures Wrap(a + Wrap(x)) == Wrap(a + x)
  {
    WrapCongruent(a + Wrap(x), a + x, -((x - MIN_INT) / MODULUS));
  }
}
