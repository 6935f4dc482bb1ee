/** Small value types shared by the whole model. */
module Basics {

  /** Kotlin's nullable `T?`. */
  datatype Option<+T> = None | Some(value: T)

  /** Kotlin's `Int`: a signed 32-bit integer. */
  type Int32 = x: int | -0x8000_0000 <= x < 0x8000_0000

  const MaxInt32: Int32 := 0x7fff_ffff
  const MinInt32: Int32 := -0x8000_0000

  /** `x++` on a Kotlin `Int`: the largest value wraps round to the smallest. */
  function Inc(x: Int32): Int32
  {
    if x == MaxInt32 then MinInt32 else x + 1
  }
}
