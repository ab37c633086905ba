/**
 * Three-component vectors, used for points, directions and linear colours
 * (src/vector.rs). Every `f64` of the program is a Dafny `real`: rounding,
 * NaN and infinities are not modelled, and a division requires a non-zero
 * divisor instead.
 */
module Vectors {

  /** A vector `e = [x, y, z]`. `Vector::new(e0, e1, e2)` is the constructor and
      the accessors `x()`, `y()`, `z()` are its destructors. */
  datatype Vector = Vector(x: real, y: real, z: real)

  /** A point is a vector. */
  type Point = Vector

  /** The bound `s` of `near_zero`: 1e-8. */
  const NearZeroBound: real := 0.00000001

  /** `Vector::zero()`. */
  function Zero(): Vector
  {
    Vector(0.0, 0.0, 0.0)
  }

  /** Component `i` (the `Index` operator); any other index panics in the source. */
  function Index(v: Vector, i: nat): real
    requires i < 3
  {
    if i == 0 then v.x else if i == 1 then v.y else v.z
  }

  /** `v` with component `i` replaced by `c`: the vector a store through `IndexMut(i)` leaves. */
  function WithComponent(v: Vector, i: nat, c: real): (w: Vector)
    requires i < 3
    ensures Index(w, i) == c
    ensures forall k :: 0 <= k < 3 && k != i ==> Index(w, k) == Index(v, k)
  {
    if i == 0 then v.(x := c) else if i == 1 then v.(y := c) else v.(z := c)
  }

  function Dot(u: Vector, v: Vector): real
  {
    u.x * v.x + u.y * v.y + u.z * v.z
  }

  function LengthSquared(v: Vector): real
  {
    v.x * v.x + v.y * v.y + v.z * v.z
  }

  function Abs(a: real): real
  {
    if a < 0.0 then -a else a
  }

  /** `near_zero`: every component is smaller than 1e-8 in absolute value. */
  predicate NearZero(v: Vector)
  {
    Abs(v.x) < NearZeroBound && Abs(v.y) < NearZeroBound && Abs(v.z) < NearZeroBound
  }

  /** The unary `-` operator. */
  function Neg(v: Vector): Vector
  {
    Vector(-v.x, -v.y, -v.z)
  }

  function Add(u: Vector, v: Vector): Vector
  {
    Vector(u.x + v.x, u.y + v.y, u.z + v.z)
  }

  function Sub(u: Vector, v: Vector): Vector
  {
    Vector(u.x - v.x, u.y - v.y, u.z - v.z)
  }

  /** `Vector * Vector`: the component-wise product. */
  function Mul(u: Vector, v: Vector): (w: Vector)
    ensures w.x + w.y + w.z == Dot(u, v)
  {
    Vector(u.x * v.x, u.y * v.y, u.z * v.z)
  }

  /** `Vector * f64`. */
  function MulScalar(v: Vector, s: real): Vector
  {
    Vector(v.x * s, v.y * s, v.z * s)
  }

  /** `f64 * Vector`, which the source defines as `rhs * self`. */
  function ScalarMul(s: real, v: Vector): Vector
  {
    MulScalar(v, s)
  }

  /** `Vector / f64`, which the source computes as `self * (1.0 / rhs)`. */
  function Div(v: Vector, s: real): (r: Vector)
    requires s != 0.0
    ensures r.x == v.x / s && r.y == v.y / s && r.z == v.z / s
  {
    MulScalar(v, 1.0 / s)
  }

  function Cross(u: Vector, v: Vector): Vector
  {
    Vector(u.y * v.z - u.z * v.y,
           u.z * v.x - u.x * v.z,
           u.x * v.y - u.y * v.x)
  }

  /** `reflect(v, n) = v - 2 (v . n) n`. */
  function Reflect(v: Vector, n: Vector): Vector
  {
    Sub(v, ScalarMul(2.0 * Dot(v, n), n))
  }

  /** `sqrt` is a square root on the non-negative reals. The program calls
      `f64::sqrt`; the model receives the routine as a parameter. */
  ghost predicate IsSqrt(sqrt: real -> real)
  {
    forall x: real {:trigger sqrt(x)} :: 0.0 <= x ==> 0.0 <= sqrt(x) && sqrt(x) * sqrt(x) == x
  }

  /** `length()`: the square root of `length_squared()`. */
  function Length(v: Vector, sqrt: real -> real): real
  {
    sqrt(LengthSquared(v))
  }

  /** `unit()`: the vector divided by its length; a zero length is a division by zero. */
  function Unit(v: Vector, sqrt: real -> real): Vector
    requires Length(v, sqrt) != 0.0
  {
    Div(v, Length(v, sqrt))
  }

  /** `random_on_hemisphere`, with the random unit vector passed in as `sample`. */
  function OnHemisphere(sample: Vector, normal: Vector): (r: Vector)
    ensures r == sample || r == Neg(sample)
    ensures 0.0 <= Dot(r, normal)
    ensures 0.0 < Dot(sample, normal) ==> r == sample
  {
    if Dot(sample, normal) > 0.0 then sample else Neg(sample)
  }

  // Properties of the operators

  /** `zero()` is near zero and has length 0. */
  lemma ZeroIsNearZero()
    ensures NearZero(Zero()) && LengthSquared(Zero()) == 0.0
  {
  }

  /** `length_squared(v)` is `dot(v, v)`, a sum of squares. */
  lemma LengthSquaredIsSelfDot(v: Vector)
    ensures LengthSquared(v) == Dot(v, v)
    ensures 0.0 <= LengthSquared(v)
  {
  }

  lemma SquareBelow(a: real, b: real)
    requires Abs(a) < b
    ensures a * a < b * b
  {
    var m := Abs(a);
    assert 0.0 <= m * (b - m);
    assert 0.0 < b * (b - m);
    calc {
      a * a;
    ==
      m * m;
    <=
      m * b;
    <
      b * b;
    }
  }

  /** A near-zero vector is shorter than sqrt(3) * 1e-8. */
  lemma NearZeroIsShort(v: Vector)
    requires NearZero(v)
    ensures LengthSquared(v) < 3.0 * (NearZeroBound * NearZeroBound)
  {
    SquareBelow(v.x, NearZeroBound);
    SquareBelow(v.y, NearZeroBound);
    SquareBelow(v.z, NearZeroBound);
  }

  lemma NearZeroNeg(v: Vector)
    ensures NearZero(Neg(v)) <==> NearZero(v)
  {
  }

  lemma AddCommutative(u: Vector, v: Vector)
    ensures Add(u, v) == Add(v, u)
  {
  }

  lemma AddAssociative(u: Vector, v: Vector, w: Vector)
    ensures Add(Add(u, v), w) == Add(u, Add(v, w))
  {
  }

  lemma SubThenAdd(u: Vector, v: Vector)
    ensures Add(Sub(u, v), v) == u
  {
  }

  lemma NegInvolutive(v: Vector)
    ensures Neg(Neg(v)) == v
  {
  }

  /** The component-wise product is commutative. */
  lemma MulCommutative(u: Vector, v: Vector)
    ensures Mul(u, v) == Mul(v, u)
  {
  }

  /** Multiplying component-wise by `(s, s, s)` scales by `s`. */
  lemma MulUniformIsScale(v: Vector, s: real)
    ensures Mul(v, Vector(s, s, s)) == MulScalar(v, s)
  {
  }

  lemma ScalarMulCommutes(s: real, v: Vector)
    ensures ScalarMul(s, v) == MulScalar(v, s)
  {
  }

  lemma DivIsMulReciprocal(v: Vector, s: real)
    requires s != 0.0
    ensures Div(v, s) == MulScalar(v, 1.0 / s)
    ensures MulScalar(Div(v, s), s) == v
  {
  }

  lemma CrossOrthogonal(u: Vector, v: Vector)
    ensures Dot(Cross(u, v), u) == 0.0
    ensures Dot(Cross(u, v), v) == 0.0
  {
  }

  lemma CrossAntiCommutative(u: Vector, v: Vector)
    ensures Cross(u, v) == Neg(Cross(v, u))
  {
  }

  /** `dot` is linear in its first argument. */
  lemma DotSubScaled(v: Vector, k: real, n: Vector, w: Vector)
    ensures Dot(Sub(v, ScalarMul(k, n)), w) == Dot(v, w) - k * Dot(n, w)
  {
  }

  lemma LengthSquaredSubScaled(v: Vector, k: real, n: Vector)
    ensures LengthSquared(Sub(v, ScalarMul(k, n)))
         == LengthSquared(v) - 2.0 * k * Dot(v, n) + k * k * LengthSquared(n)
  {
  }

  /** For a unit normal, `reflect` flips the component along the normal. */
  lemma ReflectFlipsNormalComponent(v: Vector, n: Vector)
    requires Dot(n, n) == 1.0
    ensures Dot(Reflect(v, n), n) == -Dot(v, n)
  {
    DotSubScaled(v, 2.0 * Dot(v, n), n, n);
  }

  /** For a unit normal, `reflect` keeps the length. */
  lemma ReflectPreservesLength(v: Vector, n: Vector)
    requires Dot(n, n) == 1.0
    ensures LengthSquared(Reflect(v, n)) == LengthSquared(v)
  {
    var d := Dot(v, n);
    LengthSquaredSubScaled(v, 2.0 * d, n);
    assert 2.0 * (2.0 * d) * d == (2.0 * d) * (2.0 * d) * 1.0;
  }

  lemma LengthSquaredDiv(v: Vector, s: real)
    requires s != 0.0
    ensures LengthSquared(Div(v, s)) * (s * s) == LengthSquared(v)
  {
    var k := 1.0 / s;
    assert k * s == 1.0;
    assert Div(v, s) == MulScalar(v, k);
    calc {
      LengthSquared(MulScalar(v, k)) * (s * s);
      (v.x * v.x + v.y * v.y + v.z * v.z) * ((k * s) * (k * s));
      LengthSquared(v);
    }
  }

  /** With a true square root, `unit()` of a non-zero vector has length 1. */
  lemma UnitHasLengthOne(v: Vector, sqrt: real -> real)
    requires IsSqrt(sqrt)
    requires 0.0 < LengthSquared(v)
    ensures 0.0 < Length(v, sqrt) && LengthSquared(Unit(v, sqrt)) == 1.0
  {
    var l := Length(v, sqrt);
    assert 0.0 <= l && l * l == LengthSquared(v);
    assert l != 0.0;
    LengthSquaredDiv(v, l);
    var u := LengthSquared(Unit(v, sqrt));
    assert u * (l * l) == 1.0 * (l * l);
    assert (u - 1.0) * (l * l) == 0.0;
  }

  /** A component of a unit vector lies in [-1, 1]. */
  lemma UnitComponents(v: Vector)
    requires LengthSquared(v) == 1.0
    ensures -1.0 <= v.x <= 1.0 && -1.0 <= v.y <= 1.0 && -1.0 <= v.z <= 1.0
  {
    SquareAtMostOne(v.x, v.y * v.y + v.z * v.z);
    SquareAtMostOne(v.y, v.x * v.x + v.z * v.z);
    SquareAtMostOne(v.z, v.x * v.x + v.y * v.y);
  }

  lemma SquareAtMostOne(a: real, rest: real)
    requires 0.0 <= rest && a * a + rest == 1.0
    ensures -1.0 <= a <= 1.0
  {
  }

  // The in-place operators, on the three-element storage `e` of a vector

  /** The vector held in the storage `e`. */
  function Stored(e: array<real>): (v: Vector)
    reads e
    requires e.Length == 3
    ensures forall i :: 0 <= i < 3 ==> Index(v, i) == e[i]
  {
    Vector(e[0], e[1], e[2])
  }

  /** `+=`. */
  method AddAssign(e: array<real>, rhs: Vector)
    requires e.Length == 3
    modifies e
    ensures Stored(e) == Add(old(Stored(e)), rhs)
  {
    e[0] := e[0] + rhs.x;
    e[1] := e[1] + rhs.y;
    e[2] := e[2] + rhs.z;
  }

  /** `*=` by a scalar. */
  method MulAssign(e: array<real>, rhs: real)
    requires e.Length == 3
    modifies e
    ensures Stored(e) == MulScalar(old(Stored(e)), rhs)
  {
    e[0] := e[0] * rhs;
    e[1] := e[1] * rhs;
    e[2] := e[2] * rhs;
  }

  /** `/=` by a scalar, which multiplies by the reciprocal. */
  method DivAssign(e: array<real>, rhs: real)
    requires e.Length == 3
    requires rhs != 0.0
    modifies e
    ensures Stored(e) == Div(old(Stored(e)), rhs)
  {
    MulAssign(e, 1.0 / rhs);
  }

  /** A store `c` through `IndexMut(i)`. */
  method IndexMut(e: array<real>, i: nat, c: real)
    requires e.Length == 3 && i < 3
    modifies e
    ensures e[i] == c
    ensures forall k :: 0 <= k < 3 && k != i ==> e[k] == old(e[k])
    ensures Stored(e) == WithComponent(old(Stored(e)), i, c)
  {
    e[i] := c;
  }
}
