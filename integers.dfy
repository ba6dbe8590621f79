/** Integer helpers shared by the modules: `Math.min`, `Math.max`, `Math.abs`
    and clamping to a range. */
module Integers {

  function Abs(x: int): nat {
    if x < 0 then -x else x
  }

  function Min(a: int, b: int): int {
    if a < b then a else b
  }

  function Max(a: int, b: int): int {
    if a < b then b else a
  }

  /** `i` moved into `[lo, hi]`. */
  function Clamp(i: int, lo: int, hi: int): int
    requires lo <= hi
  {
    Max(lo, Min(i, hi))
  }
}
