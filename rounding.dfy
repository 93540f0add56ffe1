// Math.round applied to a quotient of integers, as the progress graph uses it
// for monthly percentages and for the average of the series.

module Rounding {

  /**
   * Math.round(x / y), for y > 0, rounding halves up: the integer r with
   * r - 1/2 <= x / y < r + 1/2.
   */
  function RoundHalfUp(x: int, y: int): (r: int)
    requires y > 0
    ensures 2 * y * r <= 2 * x + y < 2 * y * (r + 1)
  {
    (2 * x + y) / (2 * y)
  }

  lemma MulMonotone(a: int, b: int, c: int)
    requires a >= 0 && b <= c
    ensures a * b <= a * c
  {
  }

  /** A value between lo * y and hi * y rounds to a value between lo and hi. */
  lemma RoundBetween(x: int, y: int, lo: int, hi: int)
    requires y > 0 && lo * y <= x <= hi * y
    ensures lo <= RoundHalfUp(x, y) <= hi
  {
    var r := RoundHalfUp(x, y);
    if r > hi {
      MulMonotone(2 * y, hi + 1, r);
    }
    if r < lo {
      MulMonotone(2 * y, r + 1, lo);
    }
  }
}
