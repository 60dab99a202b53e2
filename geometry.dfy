/**
 * Plane geometry shared by the Voronoi engine, the quadrant grid and the point
 * generators. The source uses `(x, y)` tuples of floats; here coordinates are exact reals.
 */
module Geometry {

  /** An `(x, y)` pair. */
  datatype Point = Point(x: real, y: real)

  /** Squared Euclidean distance between two points. */
  function DistSq(a: Point, b: Point): real
  {
    (a.x - b.x) * (a.x - b.x) + (a.y - b.y) * (a.y - b.y)
  }

  /** The point at parameter `t` on the line through `a` and `b` (`a` at 0, `b` at 1). */
  function Lerp(a: Point, b: Point, t: real): Point
  {
    Point(a.x + t * (b.x - a.x), a.y + t * (b.y - a.y))
  }

  /**
   * The signed test `f(x, y) = (x - mid.x) * normal.x + (y - mid.y) * normal.y`;
   * points with `f >= 0` are on the kept side.
   */
  datatype HalfPlane = HalfPlane(mid: Point, normal: Point)

  function Eval(h: HalfPlane, p: Point): real
  {
    (p.x - h.mid.x) * h.normal.x + (p.y - h.mid.y) * h.normal.y
  }

  /** The test function is affine: along a line it interpolates its end values. */
  lemma EvalLerp(h: HalfPlane, a: Point, b: Point, t: real)
    ensures Eval(h, Lerp(a, b, t)) == Eval(h, a) + t * (Eval(h, b) - Eval(h, a))
  {
    var nx, ny := h.normal.x, h.normal.y;
    calc {
      Eval(h, Lerp(a, b, t));
      (a.x + t * (b.x - a.x) - h.mid.x) * nx + (a.y + t * (b.y - a.y) - h.mid.y) * ny;
      ((a.x - h.mid.x) * nx + (a.y - h.mid.y) * ny) + t * ((b.x - a.x) * nx + (b.y - a.y) * ny);
      Eval(h, a) + t * (Eval(h, b) - Eval(h, a));
    }
  }

  /** A point between two points on the kept side is on the kept side too. */
  lemma EvalBetween(h: HalfPlane, a: Point, b: Point, t: real)
    requires 0.0 <= t <= 1.0
    requires Eval(h, a) >= 0.0 && Eval(h, b) >= 0.0
    ensures Eval(h, Lerp(a, b, t)) >= 0.0
  {
    EvalLerp(h, a, b, t);
    var fa, fb := Eval(h, a), Eval(h, b);
    assert fa + t * (fb - fa) == (1.0 - t) * fa + t * fb;
    assert (1.0 - t) * fa >= 0.0;
    assert t * fb >= 0.0;
  }
}
