/**
 * Java's 32-bit `int`: its range, the narrowing `(int)` of a wider value
 * and the wrapping addition.
 */
module JavaInt {
  const IntMin: int := -0x8000_0000
  const IntMax: int := 0x7FFF_FFFF

  predicate IsInt(x: int) {
    IntMin <= x <= IntMax
  }

  /** A value of Java type `int`. */
  type Int32 = x: int | IsInt(x)

  /** The narrowing `(int)`: the low 32 bits read in two's complement. */
  function NarrowToInt(x: int): (r: Int32)
    ensures (r - x) % 0x1_0000_0000 == 0
    ensures IsInt(x) ==> r == x
  {
    (x - IntMin) % 0x1_0000_0000 + IntMin
  }

  /** Java `int` addition: the sum wrapped around into 32 bits. */
  function AddInt(x: int, y: int): (r: Int32)
    ensures (r - (x + y)) % 0x1_0000_0000 == 0
    ensures IsInt(x + y) ==> r == x + y
  {
    NarrowToInt(x + y)
  }
}
