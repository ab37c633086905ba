/**
 * Hit records, the sphere intersection test and the closest-hit scan over a
 * list of spheres (src/hittable.rs). The list holds spheres directly:
 * `Box<dyn Hittable>` becomes a sequence of `Sphere` values. `f64::sqrt`
 * is the parameter `sqrt`; a division by `a = |direction|^2` or by the
 * radius requires a non-zero divisor.
 */
module Hittables {
  import opened Wrappers
  import opened Vectors
  import opened Rays
  import opened Intervals

  /** The four fields of a `HitRecord` at one moment. */
  datatype Record = Record(p: Point, normal: Vector, t: real, frontFace: bool)

  /** `set_face_normal`'s choice: the outward normal when the ray arrives from
      outside (`dot(direction, outward) < 0`), its negation otherwise. */
  function FaceNormal(direction: Vector, outwardNormal: Vector): (n: Vector)
    ensures n == outwardNormal || n == Neg(outwardNormal)
    ensures Dot(direction, outwardNormal) < 0.0 ==> n == outwardNormal
    ensures 0.0 <= Dot(direction, outwardNormal) ==> n == Neg(outwardNormal)
    ensures Dot(direction, n) <= 0.0
    ensures LengthSquared(n) == LengthSquared(outwardNormal)
  {
    var frontFace := Dot(direction, outwardNormal) < 0.0;
    if frontFace then outwardNormal else Neg(outwardNormal)
  }

  /** `HitRecord`, which the intersection tests write through a `&mut`. */
  class HitRecord {
    var p: Point
    var normal: Vector
    var t: real
    var frontFace: bool

    /** `HitRecord::new()`: all zero, `front_face` false. */
    constructor ()
      ensures Value() == Record(Zero(), Zero(), 0.0, false)
    {
      p, normal, t, frontFace := Zero(), Zero(), 0.0, false;
    }

    function Value(): Record
      reads this
    {
      Record(p, normal, t, frontFace)
    }

    /** `set_face_normal`. The front-face test is bound to a local, so the
        `front_face` field is never written: only `normal` changes. */
    method SetFaceNormal(r: Ray, outwardNormal: Vector)
      modifies this`normal
      ensures normal == FaceNormal(r.direction, outwardNormal)
      ensures Dot(r.direction, normal) <= 0.0
      ensures Value() == old(Value()).(normal := normal)
    {
      var frontFace := Dot(r.direction, outwardNormal) < 0.0;
      if frontFace {
        normal := outwardNormal;
      } else {
        normal := Neg(outwardNormal);
      }
    }

    /** The copy `*rec = tmp_record`. */
    method CopyFrom(other: HitRecord)
      modifies this
      ensures Value() == old(other.Value())
    {
      p, normal, t, frontFace := other.p, other.normal, other.t, other.frontFace;
    }
  }

  /** What a successful sphere test writes into the record: `t`, `p` and `normal`. */
  datatype SurfaceHit = SurfaceHit(t: real, p: Point, normal: Vector)

  /** `Sphere::new(center, radius)` is the constructor. */
  datatype Sphere = Sphere(center: Point, radius: real) {

    /** `Sphere::hit`, as written. The second `root` is a new binding that
        shadows the first, so the recorded `t` is always the smaller root. */
    method Hit(r: Ray, rayT: Interval, rec: HitRecord, sqrt: real -> real) returns (hit: bool)
      requires A(r) != 0.0 && radius != 0.0
      modifies rec
      ensures hit == SphereQuery(this, r, rayT, sqrt).Some?
      ensures !hit ==> rec.Value() == old(rec.Value())
      ensures hit ==> var h := SphereQuery(this, r, rayT, sqrt).value;
                      rec.Value() == Record(h.p, h.normal, h.t, old(rec.frontFace))
    {
      var oc := Sub(center, r.origin);
      var a := LengthSquared(r.direction);
      var h := Dot(r.direction, oc);
      var c := LengthSquared(oc) - radius * radius;

      var discriminant := h * h - a * c;
      assert discriminant == Discriminant(this, r);
      if discriminant < 0.0 {
        return false;
      }

      var discriminantSqrt := sqrt(discriminant);
      var root := (h - discriminantSqrt) / a;
      assert root == NearRoot(this, r, sqrt);
      if !rayT.Surrounds(Fin(root)) {
        var root := (h + discriminantSqrt) / a;
        assert root == FarRoot(this, r, sqrt);
        if !rayT.Surrounds(Fin(root)) {
          return false;
        }
      }
      rec.t := root;
      rec.p := r.At(rec.t);
      var outwardNormal := Div(Sub(rec.p, center), radius);
      rec.SetFaceNormal(r, outwardNormal);
      return true;
    }
  }

  // The quadratic |origin + t direction - center|^2 = radius^2, with h = -b/2

  function A(r: Ray): real
  {
    LengthSquared(r.direction)
  }

  function H(s: Sphere, r: Ray): real
  {
    Dot(r.direction, Sub(s.center, r.origin))
  }

  function C(s: Sphere, r: Ray): real
  {
    LengthSquared(Sub(s.center, r.origin)) - s.radius * s.radius
  }

  function Discriminant(s: Sphere, r: Ray): real
  {
    H(s, r) * H(s, r) - A(r) * C(s, r)
  }

  /** `(h - sqrt(discriminant)) / a`. */
  function NearRoot(s: Sphere, r: Ray, sqrt: real -> real): real
    requires A(r) != 0.0
  {
    (H(s, r) - sqrt(Discriminant(s, r))) / A(r)
  }

  /** `(h + sqrt(discriminant)) / a`. */
  function FarRoot(s: Sphere, r: Ray, sqrt: real -> real): real
    requires A(r) != 0.0
  {
    (H(s, r) + sqrt(Discriminant(s, r))) / A(r)
  }

  /** The point `p` lies on the surface of `s`. */
  predicate OnSphere(s: Sphere, p: Point)
  {
    LengthSquared(Sub(p, s.center)) == s.radius * s.radius
  }

  /** The record written for the root `root`: the point `r.at(root)` and the
      normal `(p - center) / radius` turned against the ray. */
  function Recorded(s: Sphere, r: Ray, root: real): SurfaceHit
    requires s.radius != 0.0
  {
    var p := r.At(root);
    SurfaceHit(root, p, FaceNormal(r.direction, Div(Sub(p, s.center), s.radius)))
  }

  /** What `Sphere::hit` returns and writes, as the code is written: a hit
      when the discriminant is non-negative and either root lies strictly
      inside `rayT`, always recorded at the smaller root. */
  function SphereQuery(s: Sphere, r: Ray, rayT: Interval, sqrt: real -> real): (q: Option<SurfaceHit>)
    requires A(r) != 0.0 && s.radius != 0.0
    ensures Discriminant(s, r) < 0.0 ==> q.None?
    ensures q.Some? ==> q.value == Recorded(s, r, NearRoot(s, r, sqrt))
  {
    if Discriminant(s, r) < 0.0 then None
    else if rayT.Surrounds(Fin(NearRoot(s, r, sqrt))) || rayT.Surrounds(Fin(FarRoot(s, r, sqrt))) then
      Some(Recorded(s, r, NearRoot(s, r, sqrt)))
    else None
  }

  /** The sphere test as evidently intended: the larger root is recorded when
      only it lies inside `rayT`. */
  function SphereQueryCorrected(s: Sphere, r: Ray, rayT: Interval, sqrt: real -> real): (q: Option<SurfaceHit>)
    requires A(r) != 0.0 && s.radius != 0.0
    ensures q.Some? == SphereQuery(s, r, rayT, sqrt).Some?
    ensures q.Some? ==> rayT.Surrounds(Fin(q.value.t)) && q.value.p == r.At(q.value.t)
    ensures q.Some? ==> q.value.t == NearRoot(s, r, sqrt) || q.value.t == FarRoot(s, r, sqrt)
  {
    if Discriminant(s, r) < 0.0 then None
    else if rayT.Surrounds(Fin(NearRoot(s, r, sqrt))) then Some(Recorded(s, r, NearRoot(s, r, sqrt)))
    else if rayT.Surrounds(Fin(FarRoot(s, r, sqrt))) then Some(Recorded(s, r, FarRoot(s, r, sqrt)))
    else None
  }

  // Geometry of the two roots

  lemma SphereEquation(s: Sphere, r: Ray, t: real)
    ensures LengthSquared(Sub(r.At(t), s.center)) - s.radius * s.radius
         == A(r) * t * t - 2.0 * H(s, r) * t + C(s, r)
  {
  }

  lemma ProductZero(a: real, q: real)
    requires a != 0.0
    ensures a * q == 0.0 <==> q == 0.0
  {
  }

  lemma CompletedSquare(a: real, h: real, c: real, t: real)
    requires a != 0.0
    ensures a * t * t - 2.0 * h * t + c == 0.0 <==> (a * t - h) * (a * t - h) == h * h - a * c
  {
    var q := a * t * t - 2.0 * h * t + c;
    assert (a * t - h) * (a * t - h) - (h * h - a * c) == a * q;
    ProductZero(a, q);
  }

  lemma SquaresEqual(y: real, s: real)
    requires 0.0 <= s
    ensures y * y == s * s <==> y == s || y == -s
  {
    assert y * y - s * s == (y - s) * (y + s);
    if y != s {
      ProductZero(y - s, y + s);
    }
  }

  lemma SolveLinear(a: real, h: real, y: real, t: real)
    requires a != 0.0
    ensures a * t - h == y <==> t == (h + y) / a
  {
    assert (h + y) / a * a == h + y;
  }

  /** The parameters where `(a t - h)^2 = sq^2` are `(h - sq) / a` and `(h + sq) / a`. */
  lemma RootsOfSquare(a: real, h: real, sq: real, t: real)
    requires a != 0.0 && 0.0 <= sq
    ensures (a * t - h) * (a * t - h) == sq * sq <==> t == (h - sq) / a || t == (h + sq) / a
  {
    var y := a * t - h;
    SquaresEqual(y, sq);
    SolveLinear(a, h, sq, t);
    SolveLinear(a, h, -sq, t);
    assert h + -sq == h - sq;
  }

  /** The ray meets the sphere at `t` exactly when `t` solves the quadratic. */
  lemma OnSphereIffQuadratic(s: Sphere, r: Ray, t: real)
    ensures OnSphere(s, r.At(t)) <==> A(r) * t * t - 2.0 * H(s, r) * t + C(s, r) == 0.0
  {
    SphereEquation(s, r, t);
  }

  /** The ray meets the sphere at `t` exactly when `(a t - h)^2` is the discriminant. */
  lemma OnSphereIffSquare(s: Sphere, r: Ray, t: real)
    requires A(r) != 0.0
    ensures OnSphere(s, r.At(t)) <==> (A(r) * t - H(s, r)) * (A(r) * t - H(s, r)) == Discriminant(s, r)
  {
    OnSphereIffQuadratic(s, r, t);
    CompletedSquare(A(r), H(s, r), C(s, r), t);
  }

  /** With a true square root, the ray meets the sphere exactly at the two
      roots, and nowhere when the discriminant is negative. */
  lemma Intersections(s: Sphere, r: Ray, sqrt: real -> real, t: real)
    requires A(r) != 0.0 && IsSqrt(sqrt)
    ensures OnSphere(s, r.At(t))
        <==> 0.0 <= Discriminant(s, r) && (t == NearRoot(s, r, sqrt) || t == FarRoot(s, r, sqrt))
  {
    OnSphereIffSquare(s, r, t);
    var y := A(r) * t - H(s, r);
    var d := Discriminant(s, r);
    if 0.0 <= d {
      var sq := sqrt(d);
      assert 0.0 <= sq && sq * sq == d;
      RootsOfSquare(A(r), H(s, r), sq, t);
    } else {
      assert 0.0 <= y * y;
    }
  }

  /** With a true square root, the near root is not after the far one. */
  lemma RootsOrdered(s: Sphere, r: Ray, sqrt: real -> real)
    requires A(r) != 0.0 && IsSqrt(sqrt) && 0.0 <= Discriminant(s, r)
    ensures NearRoot(s, r, sqrt) <= FarRoot(s, r, sqrt)
  {
    var a, h, sq := A(r), H(s, r), sqrt(Discriminant(s, r));
    assert 0.0 < a && 0.0 <= sq;
    assert FarRoot(s, r, sqrt) - NearRoot(s, r, sqrt) == (2.0 * sq) / a;
  }

  /** A point of the sphere gives a unit outward normal. */
  lemma NormalIsUnit(s: Sphere, p: Point)
    requires s.radius != 0.0 && OnSphere(s, p)
    ensures LengthSquared(Div(Sub(p, s.center), s.radius)) == 1.0
  {
    var rr := s.radius * s.radius;
    var u := LengthSquared(Div(Sub(p, s.center), s.radius));
    LengthSquaredDiv(Sub(p, s.center), s.radius);
    assert u * rr == 1.0 * rr;
    ProductZero(rr, u - 1.0);
  }

  lemma RecordedFacts(s: Sphere, r: Ray, sqrt: real -> real, root: real)
    requires A(r) != 0.0 && s.radius != 0.0 && IsSqrt(sqrt)
    requires root == NearRoot(s, r, sqrt) || root == FarRoot(s, r, sqrt)
    requires 0.0 <= Discriminant(s, r)
    ensures var h := Recorded(s, r, root);
      && h.t == root && h.p == r.At(root) && OnSphere(s, h.p)
      && LengthSquared(h.normal) == 1.0 && Dot(r.direction, h.normal) <= 0.0
  {
    Intersections(s, r, sqrt, root);
    NormalIsUnit(s, r.At(root));
  }

  // What the sphere test means

  /** With a true square root, `Sphere::hit` succeeds exactly when the ray
      meets the sphere at some parameter strictly inside `rayT`. */
  lemma SphereQueryHitIff(s: Sphere, r: Ray, rayT: Interval, sqrt: real -> real)
    requires A(r) != 0.0 && s.radius != 0.0 && IsSqrt(sqrt)
    ensures SphereQuery(s, r, rayT, sqrt).Some?
        <==> exists t :: OnSphere(s, r.At(t)) && rayT.Surrounds(Fin(t))
  {
    if SphereQuery(s, r, rayT, sqrt).Some? {
      var near, far := NearRoot(s, r, sqrt), FarRoot(s, r, sqrt);
      Intersections(s, r, sqrt, near);
      Intersections(s, r, sqrt, far);
      if rayT.Surrounds(Fin(near)) {
        assert OnSphere(s, r.At(near));
      } else {
        assert OnSphere(s, r.At(far)) && rayT.Surrounds(Fin(far));
      }
    }
    if exists t :: OnSphere(s, r.At(t)) && rayT.Surrounds(Fin(t)) {
      var t :| OnSphere(s, r.At(t)) && rayT.Surrounds(Fin(t));
      Intersections(s, r, sqrt, t);
    }
  }

  /** On a hit, `Sphere::hit` records the smaller root: the first point where
      the ray meets the sphere, which need not lie inside `rayT`. The point
      is on the sphere and the normal is a unit vector against the ray. */
  lemma SphereQueryRecordsNearRoot(s: Sphere, r: Ray, rayT: Interval, sqrt: real -> real)
    requires A(r) != 0.0 && s.radius != 0.0 && IsSqrt(sqrt)
    requires SphereQuery(s, r, rayT, sqrt).Some?
    ensures var h := SphereQuery(s, r, rayT, sqrt).value;
      && h.t == NearRoot(s, r, sqrt) && h.p == r.At(h.t) && OnSphere(s, h.p)
      && (forall t :: OnSphere(s, r.At(t)) ==> h.t <= t)
      && LengthSquared(h.normal) == 1.0 && Dot(r.direction, h.normal) <= 0.0
  {
    var near := NearRoot(s, r, sqrt);
    RecordedFacts(s, r, sqrt, near);
    RootsOrdered(s, r, sqrt);
    forall t | OnSphere(s, r.At(t))
      ensures near <= t
    {
      Intersections(s, r, sqrt, t);
    }
  }

  /** Both tests succeed on the same inputs, and the corrected one records a
      root strictly inside `rayT`, the nearest point of the sphere there. */
  lemma CorrectedQueryIsNearestInside(s: Sphere, r: Ray, rayT: Interval, sqrt: real -> real)
    requires A(r) != 0.0 && s.radius != 0.0 && IsSqrt(sqrt)
    ensures SphereQueryCorrected(s, r, rayT, sqrt).Some? == SphereQuery(s, r, rayT, sqrt).Some?
    ensures SphereQueryCorrected(s, r, rayT, sqrt).Some? ==>
      var h := SphereQueryCorrected(s, r, rayT, sqrt).value;
      && rayT.Surrounds(Fin(h.t)) && h.p == r.At(h.t) && OnSphere(s, h.p)
      && (forall t :: OnSphere(s, r.At(t)) && rayT.Surrounds(Fin(t)) ==> h.t <= t)
  {
    if SphereQueryCorrected(s, r, rayT, sqrt).Some? {
      var h := SphereQueryCorrected(s, r, rayT, sqrt).value;
      RecordedFacts(s, r, sqrt, h.t);
      RootsOrdered(s, r, sqrt);
      forall t | OnSphere(s, r.At(t)) && rayT.Surrounds(Fin(t))
        ensures h.t <= t
      {
        Intersections(s, r, sqrt, t);
      }
    }
  }

  lemma SquareDominates(sq: real, h: real)
    requires 0.0 <= sq && h * h < sq * sq
    ensures h - sq < 0.0 < h + sq
  {
  }

  /** The shadowing at work. For a ray that starts strictly inside a sphere
      (for instance at its centre), the near root is negative and the far
      root positive. Tested against `(0, +inf)`, as the camera does, only the
      far root qualifies, yet the test records the near root: a point behind
      the ray's origin. The corrected test records the far root. */
  lemma ShadowedRootBehindOrigin(s: Sphere, r: Ray, sqrt: real -> real)
    requires A(r) != 0.0 && s.radius != 0.0 && IsSqrt(sqrt)
    requires C(s, r) < 0.0
    ensures var rayT := Interval(Fin(0.0), PosInf);
      && NearRoot(s, r, sqrt) < 0.0 < FarRoot(s, r, sqrt)
      && SphereQuery(s, r, rayT, sqrt) == Some(Recorded(s, r, NearRoot(s, r, sqrt)))
      && !rayT.Surrounds(Fin(NearRoot(s, r, sqrt)))
      && SphereQueryCorrected(s, r, rayT, sqrt) == Some(Recorded(s, r, FarRoot(s, r, sqrt)))
  {
    var a, h, c := A(r), H(s, r), C(s, r);
    LengthSquaredIsSelfDot(r.direction);
    assert 0.0 < a;
    assert 0.0 < -(a * c);
    var d := Discriminant(s, r);
    assert h * h < d;
    var sq := sqrt(d);
    assert 0.0 <= sq && sq * sq == d;
    SquareDominates(sq, h);
    assert (h - sq) / a < 0.0;
    assert 0.0 < (h + sq) / a;
  }

  // The closest-hit scan

  /** Every sphere has a non-zero radius, so its test never divides by zero. */
  predicate NonZeroRadii(objects: seq<Sphere>)
  {
    forall k :: 0 <= k < |objects| ==> objects[k].radius != 0.0
  }

  /** The variables of `HittableList::hit` after a prefix of the objects:
      `closest` and the record of the last success, if any. */
  datatype ScanState = ScanState(closest: Ext, found: Option<SurfaceHit>)

  /** The scan of `HittableList::hit`: each object is tested against
      `(rayT.min, closest)`, and a success moves `closest` to its `t`. */
  function Scan(objects: seq<Sphere>, r: Ray, rayT: Interval, sqrt: real -> real): (st: ScanState)
    requires A(r) != 0.0 && NonZeroRadii(objects)
    ensures st.closest == if st.found.Some? then Fin(st.found.value.t) else rayT.max
    decreases |objects|
  {
    if objects == [] then ScanState(rayT.max, None)
    else
      var prev := Scan(objects[..|objects| - 1], r, rayT, sqrt);
      match SphereQuery(objects[|objects| - 1], r, Interval(rayT.min, prev.closest), sqrt)
      case None => prev
      case Some(h) => ScanState(Fin(h.t), Some(h))
  }

  /** The list reports a hit exactly when some object, tested alone against
      the whole of `rayT`, reports one. */
  lemma {:induction false} ScanFindsIff(objects: seq<Sphere>, r: Ray, rayT: Interval, sqrt: real -> real)
    requires A(r) != 0.0 && NonZeroRadii(objects)
    ensures Scan(objects, r, rayT, sqrt).found.Some?
        <==> exists k :: 0 <= k < |objects| && SphereQuery(objects[k], r, rayT, sqrt).Some?
  {
    if objects != [] {
      var n := |objects| - 1;
      var prefix := objects[..n];
      ScanFindsIff(prefix, r, rayT, sqrt);
      var prev := Scan(prefix, r, rayT, sqrt);
      assert forall k :: 0 <= k < n ==> prefix[k] == objects[k];
      if prev.found.None? {
        assert Interval(rayT.min, prev.closest) == rayT;
      }
    }
  }

  /** With a true square root, `closest` never exceeds `rayT.max` nor any
      parameter at which the ray meets an already scanned sphere inside `rayT`. */
  lemma {:induction false} ScanClosestBound(objects: seq<Sphere>, r: Ray, rayT: Interval, sqrt: real -> real)
    requires A(r) != 0.0 && NonZeroRadii(objects) && IsSqrt(sqrt)
    ensures var st := Scan(objects, r, rayT, sqrt);
      && Le(st.closest, rayT.max)
      && forall k, t :: 0 <= k < |objects| && OnSphere(objects[k], r.At(t)) && rayT.Surrounds(Fin(t))
                        ==> Le(st.closest, Fin(t))
  {
    if objects != [] {
      var n := |objects| - 1;
      var prefix := objects[..n];
      var last := objects[n];
      ScanClosestBound(prefix, r, rayT, sqrt);
      var prev := Scan(prefix, r, rayT, sqrt);
      var st := Scan(objects, r, rayT, sqrt);
      var q := SphereQuery(last, r, Interval(rayT.min, prev.closest), sqrt);
      assert forall k :: 0 <= k < n ==> prefix[k] == objects[k];
      if q.Some? {
        var near := NearRoot(last, r, sqrt);
        RootsOrdered(last, r, sqrt);
        assert st.closest == Fin(near);
        assert Lt(Fin(near), prev.closest);
        forall k, t | 0 <= k < |objects| && OnSphere(objects[k], r.At(t)) && rayT.Surrounds(Fin(t))
          ensures Le(st.closest, Fin(t))
        {
          if k < n {
            assert OnSphere(prefix[k], r.At(t));
            assert Le(prev.closest, Fin(t));
          } else {
            Intersections(last, r, sqrt, t);
          }
        }
      } else {
        forall k, t | 0 <= k < |objects| && OnSphere(objects[k], r.At(t)) && rayT.Surrounds(Fin(t))
          ensures Le(st.closest, Fin(t))
        {
          if k < n {
            assert OnSphere(prefix[k], r.At(t));
          } else {
            Intersections(last, r, sqrt, t);
          }
        }
      }
    }
  }

  /** The closest-hit property of `HittableList::hit`: with a true square root,
      the recorded `t` is no larger than any parameter inside `rayT` at which
      the ray meets any of the spheres. */
  lemma ScanIsNearest(objects: seq<Sphere>, r: Ray, rayT: Interval, sqrt: real -> real)
    requires A(r) != 0.0 && NonZeroRadii(objects) && IsSqrt(sqrt)
    requires Scan(objects, r, rayT, sqrt).found.Some?
    ensures var h := Scan(objects, r, rayT, sqrt).found.value;
      forall k, t :: 0 <= k < |objects| && OnSphere(objects[k], r.At(t)) && rayT.Surrounds(Fin(t))
                     ==> h.t <= t
  {
    ScanClosestBound(objects, r, rayT, sqrt);
  }

  /** With a true square root, a recorded hit lies on one of the spheres, at
      `r.at(t)`, with a unit normal against the ray. */
  lemma {:induction false} ScanFoundOnSurface(objects: seq<Sphere>, r: Ray, rayT: Interval, sqrt: real -> real)
    requires A(r) != 0.0 && NonZeroRadii(objects) && IsSqrt(sqrt)
    ensures var st := Scan(objects, r, rayT, sqrt);
      st.found.Some? ==>
        var h := st.found.value;
        && h.p == r.At(h.t) && LengthSquared(h.normal) == 1.0 && Dot(r.direction, h.normal) <= 0.0
        && exists k :: 0 <= k < |objects| && OnSphere(objects[k], h.p)
  {
    if objects != [] {
      var n := |objects| - 1;
      var prefix := objects[..n];
      var last := objects[n];
      ScanFoundOnSurface(prefix, r, rayT, sqrt);
      var prev := Scan(prefix, r, rayT, sqrt);
      var i := Interval(rayT.min, prev.closest);
      if SphereQuery(last, r, i, sqrt).Some? {
        SphereQueryRecordsNearRoot(last, r, i, sqrt);
      } else if prev.found.Some? {
        var k :| 0 <= k < n && OnSphere(prefix[k], prev.found.value.p);
        assert objects[k] == prefix[k];
      }
    }
  }

  /** `HittableList`: an ordered collection of spheres. */
  class HittableList {
    var objects: seq<Sphere>

    /** Every sphere can be tested without dividing by zero. */
    predicate Valid()
      reads this
    {
      NonZeroRadii(objects)
    }

    /** `HittableList::new()`: no objects. */
    constructor ()
      ensures objects == []
    {
      objects := [];
    }

    /** `clear`: no objects remain. */
    method Clear()
      modifies this
      ensures objects == []
    {
      objects := [];
    }

    /** `add`: appends `obj` after the existing objects, in order. */
    method Add(obj: Sphere)
      modifies this
      ensures objects == old(objects) + [obj]
      ensures old(Valid()) && obj.radius != 0.0 ==> Valid()
    {
      objects := objects + [obj];
    }

    /** `HittableList::hit`: the scan over all objects. On a hit `rec` holds the
        record of the last successful object, with `front_face` false, because
        the shared temporary record is created with `front_face` false and no
        test ever sets it; on a miss `rec` is unchanged. */
    method Hit(r: Ray, rayT: Interval, rec: HitRecord, sqrt: real -> real) returns (hitAnything: bool)
      requires A(r) != 0.0 && Valid()
      modifies rec
      ensures hitAnything == Scan(objects, r, rayT, sqrt).found.Some?
      ensures !hitAnything ==> rec.Value() == old(rec.Value())
      ensures hitAnything ==> var h := Scan(objects, r, rayT, sqrt).found.value;
                              rec.Value() == Record(h.p, h.normal, h.t, false)
    {
      var tmpRecord := new HitRecord();
      hitAnything := false;
      var closest := rayT.max;

      for k := 0 to |objects|
        invariant closest == Scan(objects[..k], r, rayT, sqrt).closest
        invariant hitAnything == Scan(objects[..k], r, rayT, sqrt).found.Some?
        invariant !tmpRecord.frontFace
        invariant hitAnything ==> var h := Scan(objects[..k], r, rayT, sqrt).found.value;
                                  && tmpRecord.Value() == Record(h.p, h.normal, h.t, false)
                                  && rec.Value() == tmpRecord.Value()
        invariant !hitAnything ==> rec.Value() == old(rec.Value())
      {
        assert objects[..k + 1][..k] == objects[..k];
        var hitObject := objects[k].Hit(r, Interval(rayT.min, closest), tmpRecord, sqrt);
        if hitObject {
          hitAnything := true;
          closest := Fin(tmpRecord.t);
          rec.CopyFrom(tmpRecord);
        }
      }
      assert objects[..|objects|] == objects;
    }
  }
}
