/** The 32-bit `int`. */
module Integers {
  const INT_HALF: int := 0x8000_0000

  type Int32 = n: int | -INT_HALF <= n < INT_HALF

  /** What a conversion to `int` makes of `n`: its low 32 bits, read as a signed number. */
  function ToInt32(n: int): Int32 {
    var m := n % (2 * INT_HALF);
    if m < INT_HALF then m else m - 2 * INT_HALF
  }
}
