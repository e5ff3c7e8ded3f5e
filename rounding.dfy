/**
 * Fixed-precision rounding of coordinates before they are written
 * (`r`, src/main.rs:19-21): `(x * 1000.0).round() / 1000.0`, where
 * `f64::round` rounds half-way cases away from zero.
 */
module Rounding {

  import Geometry

  /** `f64::round` on exact reals: the nearest integer, ties away from zero. */
  function RoundHalfAway(y: real): (k: int)
    ensures -0.5 <= y - k as real <= 0.5
    ensures y - k as real == 0.5 ==> y < 0.0
    ensures y - k as real == -0.5 ==> y > 0.0
  {
    if y >= 0.0 then (y + 0.5).Floor else -((-y + 0.5).Floor)
  }

  /** Rounding an integer gives it back. */
  lemma RoundHalfAwayOfInt(j: int)
    ensures RoundHalfAway(j as real) == j
  {
    var k := RoundHalfAway(j as real);
    assert -0.5 <= (j - k) as real <= 0.5;
  }

  /** No integer is nearer to `y` than `RoundHalfAway(y)`. */
  lemma RoundHalfAwayNearest(y: real, j: int)
    ensures Geometry.Abs(y - RoundHalfAway(y) as real) <= Geometry.Abs(y - j as real)
  {
    var k := RoundHalfAway(y);
    if j < k {
      assert j as real <= k as real - 1.0;
    } else if j > k {
      assert j as real >= k as real + 1.0;
    }
  }


  /** The number of thousandths `r(x)` carries: `(x * 1000.0).round()`. */
  function Milli(x: real): int
  {
    RoundHalfAway(x * 1000.0)
  }

  /** `r` (src/main.rs:19-21): `x` rounded to the nearest thousandth, ties away from zero. */
  function R(x: real): (v: real)
    ensures v * 1000.0 == Milli(x) as real
    ensures Geometry.Abs(v - x) <= 0.0005
    ensures Geometry.Abs(v - x) == 0.0005 ==> (x > 0.0 ==> v > x) && (x < 0.0 ==> v < x)
  {
    Milli(x) as real / 1000.0
  }

  /** Rounding twice is rounding once. */
  lemma RIdempotent(x: real)
    ensures R(R(x)) == R(x)
  {
    RoundHalfAwayOfInt(Milli(x));
  }

  /** `R(x)` is a multiple of 0.001 nearest to `x`: no other multiple is closer. */
  lemma RNearest(x: real, j: int)
    ensures Geometry.Abs(R(x) - x) <= Geometry.Abs(j as real / 1000.0 - x)
  {
    RoundHalfAwayNearest(x * 1000.0, j);
    var k := Milli(x);
    assert Geometry.Abs(x * 1000.0 - k as real) == 1000.0 * Geometry.Abs(R(x) - x);
    assert Geometry.Abs(x * 1000.0 - j as real) == 1000.0 * Geometry.Abs(j as real / 1000.0 - x);
  }
}
