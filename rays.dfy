/** Rays: an origin and a direction, both held by value (src/ray.rs). */
module Rays {
  import opened Vectors

  /** `Ray::new(origin, direction)` is the constructor; `origin()` and
      `direction()` are its destructors and return the stored values unchanged. */
  datatype Ray = Ray(origin: Point, direction: Vector) {

    /** `at(t) = origin + direction * t`: the point displaced from the origin by `t` directions. */
    function At(t: real): (p: Point)
      ensures Sub(p, origin) == MulScalar(direction, t)
    {
      Add(origin, MulScalar(direction, t))
    }
  }

  lemma AtZero(r: Ray)
    ensures r.At(0.0) == r.origin
  {
  }

  /** `at` is affine in `t`. */
  lemma AtAffine(r: Ray, t: real, s: real)
    ensures r.At(t + s) == Add(r.At(t), ScalarMul(s, r.direction))
  {
  }
}
