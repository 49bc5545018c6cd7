/**
 * Python's `round(x, 2)`, taken on exact rationals: the nearest multiple of
 * 0.01, with an exact tie going to the even hundredth (banker's rounding).
 */
module Rounding {

  /** The integer nearest to `y`; a tie (fraction exactly one half) goes to the even one. */
  function RoundHalfEven(y: real): (n: int)
    ensures y - 0.5 <= n as real <= y + 0.5
    ensures n as real - y == 0.5 ==> n % 2 == 0
    ensures y - n as real == 0.5 ==> n % 2 == 0
  {
    var f := y.Floor;
    var d := y - f as real;
    if d < 0.5 then f
    else if d > 0.5 then f + 1
    else if f % 2 == 0 then f
    else f + 1
  }

  /** `round(p, 2)`. */
  function Round2(p: real): (r: real)
    ensures p - 0.005 <= r <= p + 0.005
  {
    RoundHalfEven(p * 100.0) as real / 100.0
  }

  /** An integer is its own rounding. */
  lemma RoundHalfEvenOfInt(n: int)
    ensures RoundHalfEven(n as real) == n
  {
  }

  /** Rounding to the nearest integer never reverses an order. */
  lemma RoundHalfEvenMonotone(y1: real, y2: real)
    requires y1 <= y2
    ensures RoundHalfEven(y1) <= RoundHalfEven(y2)
  {
    var f1, f2 := y1.Floor, y2.Floor;
    assert f1 <= f2;
    if f1 == f2 {
      assert y1 - f1 as real <= y2 - f2 as real;
    }
  }

  /** Rounding to hundredths never reverses an order (it may merge two values into a tie). */
  lemma Round2Monotone(p1: real, p2: real)
    requires p1 <= p2
    ensures Round2(p1) <= Round2(p2)
  {
    RoundHalfEvenMonotone(p1 * 100.0, p2 * 100.0);
  }

  /** A value in [0, 100] rounds to a value in [0, 100]. */
  lemma Round2Bounds(p: real)
    requires 0.0 <= p <= 100.0
    ensures 0.0 <= Round2(p) <= 100.0
  {
    Round2Monotone(0.0, p);
    Round2Monotone(p, 100.0);
    RoundHalfEvenOfInt(0);
    RoundHalfEvenOfInt(10000);
  }
}
