/**
 * Points, linear interpolation and line intersection (src/main.rs:11-31).
 * Coordinates are exact reals: the `f64` arithmetic of the source is idealised.
 */
module Geometry {
  import opened Wrappers

  /** A point `[x, y]` of the source's `[f64; 2]`. */
  datatype Point = Point(x: real, y: real)

  function Sub(p: Point, q: Point): Point
  {
    Point(p.x - q.x, p.y - q.y)
  }

  /** The z component of the cross product; zero exactly when `u` and `v` are parallel. */
  function Cross(u: Point, v: Point): real
  {
    u.x * v.y - u.y * v.x
  }

  function Abs(x: real): real
  {
    if x < 0.0 then -x else x
  }

  /** `p` lies on the infinite line through `a` and `b`. */
  predicate OnLine(a: Point, b: Point, p: Point)
  {
    Cross(Sub(b, a), Sub(p, a)) == 0.0
  }

  /** `v` lies between `a` and `b`, whichever of the two is smaller. */
  predicate Between(a: real, b: real, v: real)
  {
    (a <= b ==> a <= v <= b) && (b <= a ==> b <= v <= a)
  }

  /** `p` lies on the closed segment from `a` to `b`. */
  predicate OnSegment(a: Point, b: Point, p: Point)
  {
    OnLine(a, b, p) && Between(a.x, b.x, p.x) && Between(a.y, b.y, p.y)
  }

  lemma MulNonneg(x: real, y: real)
    requires 0.0 <= x && 0.0 <= y
    ensures 0.0 <= x * y
  {
  }

  lemma ScaleBetween(a: real, b: real, t: real)
    requires 0.0 <= t <= 1.0
    ensures Between(a, b, a + t * (b - a))
  {
    if a <= b {
      MulNonneg(t, b - a);
      MulNonneg(1.0 - t, b - a);
      assert (1.0 - t) * (b - a) == (b - a) - t * (b - a);
    } else {
      MulNonneg(t, a - b);
      MulNonneg(1.0 - t, a - b);
      assert (1.0 - t) * (a - b) == (a - b) - t * (a - b);
      assert t * (a - b) == -(t * (b - a));
    }
  }

  /**
   * `lerp` (src/main.rs:11-13): the value at parameter `t` on the way from
   * `a` (t = 0) to `b` (t = 1).
   */
  function Lerp(a: real, b: real, t: real): (r: real)
    ensures t == 0.0 ==> r == a
    ensures t == 1.0 ==> r == b
  {
    (1.0 - t) * a + t * b
  }

  /** `Lerp` moves from `a` in proportion to `t`, and stays between `a` and `b` when `t` is in [0, 1]. */
  lemma LerpProportional(a: real, b: real, t: real)
    ensures Lerp(a, b, t) - a == t * (b - a)
    ensures 0.0 <= t <= 1.0 ==> Between(a, b, Lerp(a, b, t))
  {
    assert Lerp(a, b, t) == a + t * (b - a);
    if 0.0 <= t <= 1.0 {
      ScaleBetween(a, b, t);
    }
  }

  /** `lerp_vec` (src/main.rs:15-17): `Lerp` applied to each coordinate on its own. */
  function LerpVec(a: Point, b: Point, t: real): (r: Point)
    ensures t == 0.0 ==> r == a
    ensures t == 1.0 ==> r == b
  {
    Point(Lerp(a.x, b.x, t), Lerp(a.y, b.y, t))
  }

  /** `LerpVec` stays on the line through `a` and `b`, and on the segment between them when `t` is in [0, 1]. */
  lemma LerpVecOnSegment(a: Point, b: Point, t: real)
    ensures OnLine(a, b, LerpVec(a, b, t))
    ensures 0.0 <= t <= 1.0 ==> OnSegment(a, b, LerpVec(a, b, t))
  {
    var r := LerpVec(a, b, t);
    LerpProportional(a.x, b.x, t);
    LerpProportional(a.y, b.y, t);
    calc {
      Cross(Sub(b, a), Sub(r, a));
      (b.x - a.x) * (t * (b.y - a.y)) - (b.y - a.y) * (t * (b.x - a.x));
      0.0;
    }
  }

  /** Interpolating from `b` back to `a` at `1 - t` is interpolating from `a` to `b` at `t`. */
  lemma LerpVecSwap(a: Point, b: Point, t: real)
    ensures LerpVec(b, a, 1.0 - t) == LerpVec(a, b, t)
  {
    LerpProportional(a.x, b.x, t);
    LerpProportional(a.y, b.y, t);
    LerpProportional(b.x, a.x, 1.0 - t);
    LerpProportional(b.y, a.y, 1.0 - t);
  }

  /** The determinant of the two direction vectors (src/main.rs:24). */
  function Det(a1: Point, a2: Point, b1: Point, b2: Point): real
  {
    (a1.x - a2.x) * (b1.y - b2.y) - (a1.y - a2.y) * (b1.x - b2.x)
  }

  /** The parameter on line a1 -> a2 of the intersection (src/main.rs:29). */
  function Param(a1: Point, a2: Point, b1: Point, b2: Point): real
    requires Det(a1, a2, b1, b2) != 0.0
  {
    ((a1.x - b1.x) * (b1.y - b2.y) - (a1.y - b1.y) * (b1.x - b2.x)) / Det(a1, a2, b1, b2)
  }

  /** The tolerance below which `intersect` treats two lines as parallel. */
  const Epsilon: real := 0.000001

  /**
   * `intersect` (src/main.rs:23-31): the common point of the line through
   * a1, a2 and the line through b1, b2, or None when the determinant is
   * smaller than `Epsilon` in magnitude.
   */
  function Intersect(a1: Point, a2: Point, b1: Point, b2: Point): (r: Option<Point>)
    ensures r.None? <==> Abs(Det(a1, a2, b1, b2)) < Epsilon
    ensures r.Some? ==> r.value == LerpVec(a1, a2, Param(a1, a2, b1, b2))
    ensures r.Some? ==> OnLine(a1, a2, r.value) && OnLine(b1, b2, r.value)
  {
    var d := Det(a1, a2, b1, b2);
    if Abs(d) < Epsilon then
      None
    else
      var t := Param(a1, a2, b1, b2);
      var p := Point(Lerp(a1.x, a2.x, t), Lerp(a1.y, a2.y, t));
      LerpVecOnSegment(a1, a2, t);
      IntersectionOnSecondLine(a1, a2, b1, b2);
      Some(p)
  }

  /** The point at parameter `Param` on the first line is on the second line. */
  lemma IntersectionOnSecondLine(a1: Point, a2: Point, b1: Point, b2: Point)
    requires Det(a1, a2, b1, b2) != 0.0
    ensures OnLine(b1, b2, LerpVec(a1, a2, Param(a1, a2, b1, b2)))
  {
    var d := Det(a1, a2, b1, b2);
    var t := Param(a1, a2, b1, b2);
    var p := LerpVec(a1, a2, t);
    var u := Sub(a1, a2);
    var v := Sub(b1, b2);
    var w := Sub(a1, b1);
    var n := w.x * v.y - w.y * v.x;
    assert t * d == n;
    LerpProportional(a1.x, a2.x, t);
    LerpProportional(a1.y, a2.y, t);
    assert p.x - b1.x == w.x - t * u.x;
    assert p.y - b1.y == w.y - t * u.y;
    calc {
      Cross(Sub(b2, b1), Sub(p, b1));
      (-v.x) * (w.y - t * u.y) - (-v.y) * (w.x - t * u.x);
      w.x * v.y - w.y * v.x - t * (u.x * v.y - u.y * v.x);
      n - t * d;
      0.0;
    }
  }

  /** The cross product with a difference is the difference of the cross products. */
  lemma CrossSub(u: Point, p: Point, q: Point, a: Point)
    ensures Cross(u, Sub(p, q)) == Cross(u, Sub(p, a)) - Cross(u, Sub(q, a))
  {
  }

  lemma ZeroFactor(x: real, y: real)
    requires x * y == 0.0 && y != 0.0
    ensures x == 0.0
  {
  }

  /** A vector parallel to two directions that are not parallel to each other is zero. */
  lemma ParallelToBoth(u: Point, v: Point, w: Point)
    requires Cross(u, w) == 0.0 && Cross(v, w) == 0.0 && Cross(u, v) != 0.0
    ensures w == Point(0.0, 0.0)
  {
    assert u.x * w.y == u.y * w.x && v.x * w.y == v.y * w.x;
    calc {
      w.x * Cross(u, v);
      u.x * (v.y * w.x) - v.x * (u.y * w.x);
      u.x * (v.x * w.y) - v.x * (u.x * w.y);
      0.0;
    }
    calc {
      w.y * Cross(u, v);
      u.y * (v.x * w.y) - v.y * (u.x * w.y);
      u.y * (v.y * w.x) - v.y * (u.y * w.x);
      0.0;
    }
    ZeroFactor(w.x, Cross(u, v));
    ZeroFactor(w.y, Cross(u, v));
  }

  /** `Det` is the cross product of the two directions. */
  lemma DetIsCross(a1: Point, a2: Point, b1: Point, b2: Point)
    ensures Det(a1, a2, b1, b2) == Cross(Sub(a2, a1), Sub(b2, b1))
  {
  }

  /**
   * Two lines that are not parallel meet in one point only: any point on
   * both lines is the point `Intersect` returns.
   */
  lemma IntersectUnique(a1: Point, a2: Point, b1: Point, b2: Point, q: Point)
    requires Intersect(a1, a2, b1, b2).Some?
    requires OnLine(a1, a2, q) && OnLine(b1, b2, q)
    ensures Intersect(a1, a2, b1, b2) == Some(q)
  {
    var p := Intersect(a1, a2, b1, b2).value;
    var u, v := Sub(a2, a1), Sub(b2, b1);
    DetIsCross(a1, a2, b1, b2);
    CrossSub(u, p, q, a1);
    CrossSub(v, p, q, b1);
    ParallelToBoth(u, v, Sub(p, q));
  }

  /** Exactly parallel lines (zero determinant) never intersect. */
  lemma ParallelIsNone(a1: Point, a2: Point, b1: Point, b2: Point)
    requires Cross(Sub(a2, a1), Sub(b2, b1)) == 0.0
    ensures Intersect(a1, a2, b1, b2) == None
  {
    DetIsCross(a1, a2, b1, b2);
  }
}
