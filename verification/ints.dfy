/** Go's fixed-width signed integers, where the width matters to the model. */
module Ints {

  const TWO_TO_THE_63: int := 0x8000_0000_0000_0000
  const TWO_TO_THE_64: int := 0x1_0000_0000_0000_0000

  /** Go's int64. */
  newtype Int64 = x: int | -0x8000_0000_0000_0000 <= x < 0x8000_0000_0000_0000

  predicate InInt64Range(x: int) {
    -TWO_TO_THE_63 <= x < TWO_TO_THE_63
  }

  /** The int64 that two's-complement arithmetic leaves for the mathematical value x. */
  function Wrap64(x: int): (r: Int64)
    ensures (r as int - x) % TWO_TO_THE_64 == 0
    ensures InInt64Range(x) ==> r as int == x
  {
    var m := x % TWO_TO_THE_64;
    if m < TWO_TO_THE_63 then m as Int64 else (m - TWO_TO_THE_64) as Int64
  }
}
