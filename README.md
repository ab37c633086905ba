# A verified model of an early ray tracer

This project models the core of a small Rust ray tracer at an early revision.
It covers:

- three-component vectors, rays, and intervals with possibly infinite bounds;
- the sphere intersection test and the closest-hit scan over a list of spheres;
- the quantisation of a colour into three bytes and its text line;
- a pinhole camera that turns every pixel of the image into a ray, colours the
  ray by the surface normal it hits or by a sky gradient, and writes the image
  as plain PPM text.

Every `f64` is a Dafny `real`, and the bounds `INFINITY` and `-INFINITY` are
the extended reals `Ext = NegInf | Fin(real) | PosInf`. `f64::sqrt` is a
parameter `sqrt: real -> real`. The lemmas that need it assume `IsSqrt(sqrt)`:
`sqrt` returns a non-negative root on the non-negative reals.

Modules, one per source file, plus two support modules (`Decimals` and
`Wrappers`) that correspond to no source file:

- `Vectors`: `src/vector.rs`. The arithmetic operators are functions on a
  `Vector` datatype. The in-place operators (`+=`, `*=`, `/=`, `IndexMut`) are
  methods on the three-element storage `e: array<real>`.
- `Rays`: `src/ray.rs`.
- `Intervals`: `src/interval.rs`.
- `Hittables`: `src/hittable.rs`.
  - `HitRecord` is a class whose fields the intersection tests
    (`Sphere::hit`, `set_face_normal`) write.
  - `Sphere::hit` is a method written as the code is, specified by the pure
    query `SphereQuery`.
  - `HittableList` is a class holding a `seq<Sphere>`. Its `hit` is a loop
    specified by the pure scan `Scan`.
- `Colors`: `src/color.rs`. `write_color` returns its line instead of writing it.
- `Decimals` (support): the `{}` formatting of integers used by `write_color` and by the
  image header, plus a parser used to state that a written line reads back.
- `Cameras`: `src/camera.rs`.
  - `Camera` is a datatype: after `new`, nothing changes a camera.
  - `new` is a static method that mirrors the steps of the source.
  - `render` returns the sequence of lines it would print.
- `Wrappers` (support): `Option`.

The model follows the code of this revision exactly. In particular:

- `ray_color` is not recursive. It tests hits in `(0, +inf)`, not
  `(0.001, +inf)`, and shows the surface normal.
- `write_color` has no gamma or clamp step: each byte is `255.999 * channel`
  cast to `i32`.
- The `front_face` field is never written.
- When only the larger root qualifies, `Sphere::hit` records the smaller root
  (see Findings).

## Model

| member | source | states |
|---|---|---|
| Vectors.WithComponent | src/vector.rs:104-108 | writing component `i` sets it to `c` and leaves the other two components as they were |
| Vectors.Div | src/vector.rs:167-172 | `v / s` (computed as `v * (1 / s)`) divides each component by `s` |
| Vectors.OnHemisphere | src/vector.rs:76-83 | the result is the sample or its negation, never points against the normal, and is the sample when the sample points along the normal |
| Vectors.ZeroIsNearZero | src/vector.rs:19-21 | `zero()` is near zero and has squared length 0 |
| Vectors.LengthSquaredIsSelfDot | src/vector.rs:33-35 | `length_squared(v) == dot(v, v)`, and it is non-negative |
| Vectors.NearZeroIsShort | src/vector.rs:44-47 | a near-zero vector has squared length below `3 * (1e-8)^2` |
| Vectors.NearZeroNeg | src/vector.rs:44-47 | `near_zero` holds for `-v` exactly when it holds for `v` |
| Vectors.AddCommutative | src/vector.rs:117-128 | `u + v == v + u` |
| Vectors.AddAssociative | src/vector.rs:117-128 | `(u + v) + w == u + (v + w)` |
| Vectors.SubThenAdd | src/vector.rs:129-140 | `(u - v) + v == u` |
| Vectors.NegInvolutive | src/vector.rs:86-94 | `-(-v) == v` |
| Vectors.Mul | src/vector.rs:141-152 | `Vector * Vector` multiplies component by component, so its components sum to the dot product (laws: `MulCommutative`, `MulUniformIsScale`) |
| Vectors.MulCommutative | src/vector.rs:141-152 | the component-wise product is commutative |
| Vectors.MulUniformIsScale | src/vector.rs:141-160 | multiplying component-wise by `(s, s, s)` equals `v * s` |
| Vectors.ScalarMulCommutes | src/vector.rs:161-166 | `s * v == v * s` |
| Vectors.DivIsMulReciprocal | src/vector.rs:167-172 | `v / s == v * (1 / s)`, and multiplying back by `s` restores `v` |
| Vectors.CrossOrthogonal | src/vector.rs:193-201 | `cross(u, v)` is orthogonal to `u` and to `v` |
| Vectors.CrossAntiCommutative | src/vector.rs:193-201 | `cross(u, v) == -cross(v, u)` |
| Vectors.ReflectFlipsNormalComponent | src/vector.rs:203-205 | `dot(reflect(v, n), n) == -dot(v, n)` for a unit `n` |
| Vectors.ReflectPreservesLength | src/vector.rs:203-205 | reflecting about a unit `n` keeps the squared length |
| Vectors.LengthSquaredDiv | src/vector.rs:167-172 | dividing by `s` divides the squared length by `s * s` |
| Vectors.UnitHasLengthOne | src/vector.rs:40-42 | with a true square root, `unit()` of a non-zero vector has squared length 1 |
| Vectors.UnitComponents | src/vector.rs:40-42 | every component of a unit vector lies in `[-1, 1]` |
| Vectors.Stored | src/vector.rs:8-10 | the vector held in `e` has component `i` equal to `e[i]` |
| Vectors.AddAssign | src/vector.rs:110-116 | after `+=` the storage holds the sum of the old vector and `rhs` |
| Vectors.MulAssign | src/vector.rs:174-180 | after `*=` the storage holds the old vector times `rhs` |
| Vectors.DivAssign | src/vector.rs:182-186 | after `/=` the storage holds the old vector divided by `rhs` |
| Vectors.IndexMut | src/vector.rs:104-108 | a store through `IndexMut(i)` changes component `i` only |
| Rays.Ray.At | src/ray.rs:21-23 | `at(t) - origin == direction * t` |
| Rays.AtZero | src/ray.rs:21-23 | `at(0) == origin` |
| Rays.AtAffine | src/ray.rs:21-23 | `at(t + s) == at(t) + s * direction` |
| Intervals.Interval.Size | src/interval.rs:20-22 | `size()` is finite exactly when both bounds are, then `min + size == max`; it is `+inf` exactly when `max` is `+inf` or `min` is `-inf` |
| Intervals.Interval.Clamp | src/interval.rs:32-40 | `clamp(x) == x` inside the interval, `min` below it, `max` above it, and always inside a well-formed interval |
| Intervals.Empty | src/interval.rs:9-14 | `empty()` has `min = +inf`, `max = -inf`, and neither contains nor surrounds any value |
| Intervals.IntensityInterval | src/interval.rs:42-47 | the intensity interval is `[0, 0.999]`, and its clamp of any value is finite and in that range |
| Intervals.LtIrreflexive | src/interval.rs:28-30 | the `<` used by `surrounds` is irreflexive on extended reals |
| Intervals.LtTrichotomy | src/interval.rs:28-30 | any two extended reals are ordered by `<` or equal |
| Intervals.LtTransitive | src/interval.rs:28-30 | the `<` used by `surrounds` is transitive |
| Intervals.SurroundsImpliesContains | src/interval.rs:24-30 | `surrounds(x)` implies `contains(x)` |
| Intervals.ContainsNotSurrounds | src/interval.rs:24-30 | a contained value fails `surrounds` exactly when it is `min` or `max` |
| Intervals.ClampIdempotent | src/interval.rs:32-40 | when `min <= max`, `clamp(clamp(x)) == clamp(x)` |
| Intervals.ClampNotIdempotentWhenInverted | src/interval.rs:32-40 | on `[1, 0]`, `clamp(0.5) == 1` but `clamp(1) == 0` |
| Hittables.FaceNormal | src/hittable.rs:22-30 | the stored normal is the outward normal or its negation, the outward one exactly when the ray arrives from outside, never along the ray, and of the same length |
| Hittables.HitRecord.constructor | src/hittable.rs:14-21 | a new record is all zero with `front_face` false |
| Hittables.HitRecord.SetFaceNormal | src/hittable.rs:22-30 | only `normal` changes, to the face normal against the ray; `p`, `t` and `front_face` are untouched |
| Hittables.HitRecord.CopyFrom | src/hittable.rs:106 | after `*rec = tmp_record`, all four fields equal the source record's |
| Hittables.SphereQuery | src/hittable.rs:49-73 | what `Sphere::hit` returns and records as written: no hit when the discriminant is negative, and every hit recorded at the smaller root `(h - sqrt d) / a` (its meaning: `SphereQueryHitIff`, `SphereQueryRecordsNearRoot`) |
| Hittables.SphereQueryCorrected | src/hittable.rs:60-67 | the test with the larger root assigned to the outer `root`: it succeeds on the same inputs as the code, and records one of the two roots, at a `t` strictly inside `ray_t` |
| Hittables.Sphere.Hit | src/hittable.rs:49-73 | returns true exactly when `SphereQuery` finds a hit; on a miss the record is unchanged; on a hit it holds the query's `t`, `p` and normal, and `front_face` keeps its old value |
| Hittables.OnSphereIffQuadratic | src/hittable.rs:50-55 | the ray meets the sphere at `t` exactly when `a t^2 - 2 h t + c == 0` |
| Hittables.OnSphereIffSquare | src/hittable.rs:50-55 | the ray meets the sphere at `t` exactly when `(a t - h)^2` equals the discriminant |
| Hittables.Intersections | src/hittable.rs:55-63 | with a true square root, the ray meets the sphere exactly at the two roots, and nowhere when the discriminant is negative |
| Hittables.RootsOrdered | src/hittable.rs:60-63 | the root `(h - sqrt d) / a` is not after `(h + sqrt d) / a` |
| Hittables.NormalIsUnit | src/hittable.rs:70 | for a point on the sphere, `(p - center) / radius` is a unit vector |
| Hittables.RecordedFacts | src/hittable.rs:68-71 | the recorded point is `r.at(t)` and lies on the sphere; its normal is a unit vector against the ray |
| Hittables.SphereQueryHitIff | src/hittable.rs:55-67 | `Sphere::hit` succeeds exactly when the ray meets the sphere at some `t` strictly inside `ray_t` |
| Hittables.SphereQueryRecordsNearRoot | src/hittable.rs:61-71 | on a hit, the recorded `t` is the smaller root, the first point where the ray meets the sphere (possibly outside `ray_t`); `p == r.at(t)` is on the sphere with a unit normal against the ray |
| Hittables.CorrectedQueryIsNearestInside | src/hittable.rs:60-67 | the corrected test succeeds on the same inputs and records a `t` strictly inside `ray_t`, the nearest meeting point there |
| Hittables.ShadowedRootBehindOrigin | src/hittable.rs:63 | for a ray starting inside a sphere, tested on `(0, +inf)`, the code records the negative root, which is outside the interval; the corrected test records the positive one |
| Hittables.Scan | src/hittable.rs:100-107 | `closest` is the `t` of the last success, or `ray_t.max` when nothing was hit |
| Hittables.ScanFindsIff | src/hittable.rs:97-111 | the list reports a hit exactly when some sphere, tested alone on `ray_t`, reports one |
| Hittables.ScanClosestBound | src/hittable.rs:100-107 | `closest` never exceeds `ray_t.max`, nor any `t` inside `ray_t` at which the ray meets a scanned sphere |
| Hittables.ScanIsNearest | src/hittable.rs:97-111 | a recorded hit is no farther than any meeting point of the ray with any sphere inside `ray_t` |
| Hittables.ScanFoundOnSurface | src/hittable.rs:97-111 | a recorded hit is `r.at(t)`, lies on one of the spheres, and has a unit normal against the ray |
| Hittables.HittableList.constructor | src/hittable.rs:81-85 | a new list is empty |
| Hittables.HittableList.Clear | src/hittable.rs:87-89 | after `clear` no objects remain |
| Hittables.HittableList.Add | src/hittable.rs:91-93 | `add` appends the object after the existing ones, in order |
| Hittables.HittableList.Hit | src/hittable.rs:97-111 | returns true exactly when the scan finds a hit, and then `rec` holds the last success's record with `front_face` false; on a miss `rec` is unchanged |
| Colors.Truncate | src/color.rs:13-15 | the `as` cast truncates toward zero: below or at `x` for `x >= 0`, above or at `x` for `x < 0`, by less than 1 |
| Colors.TruncateToI32 | src/color.rs:13-15 | `as i32` is truncation when the result fits and saturates at `i32::MIN` and `i32::MAX` otherwise |
| Colors.TruncateMonotone | src/color.rs:13-15 | truncation is monotone |
| Colors.ChannelByte | src/color.rs:13-15 | a channel's byte, `255.999 * c` cast to `i32`, always lies in the `i32` range (in `[0, 255]` for `c` in `[0, 1]`, endpoints and monotonicity: the lemmas below) |
| Colors.ChannelByteRange | src/color.rs:13-15 | a channel in `[0, 1]` gives a byte in `[0, 255]` |
| Colors.ChannelByteEndpoints | src/color.rs:13-15 | channel 0 gives 0 and channel 1 gives 255 |
| Colors.ChannelByteMonotone | src/color.rs:13-15 | a larger channel never gives a smaller byte |
| Colors.SmallNegativeChannelIsZero | src/color.rs:13-15 | a channel just below 0 truncates to 0, not to -1 |
| Colors.HugeChannelSaturates | src/color.rs:13-15 | a channel beyond the `i32` range gives `i32::MAX` |
| Colors.WriteColor | src/color.rs:17 | the written line is non-empty and ends with a newline |
| Colors.SplitThree | src/color.rs:17 | three space-free fields joined by single spaces split back into those fields |
| Colors.TripleParses | src/color.rs:17 | three integers written as `"{} {} {}\n"` read back as the same integers, in order |
| Colors.WriteColorParses | src/color.rs:7-18 | the line for a colour reads back as the bytes of its r, g and b channels, in that order |
| Colors.WriteColorInByteRange | src/color.rs:13-17 | a colour in the unit cube is written as three integers in `[0, 255]` |
| Decimals.NatToString | src/camera.rs:48 | the decimal text of a natural number is non-empty, all digits, and has no leading zero |
| Decimals.IntToString | src/color.rs:17 | the decimal text of an integer is non-empty with no space or newline |
| Decimals.ParseNatToString | src/camera.rs:48 | the decimal text of a natural number reads back as that number |
| Decimals.IntToStringRoundTrip | src/color.rs:17 | the decimal text of any integer, negative ones included, reads back as that integer |
| Cameras.SaturatingU32 | src/camera.rs:25 | `as u32` truncates toward zero and saturates at 0 and at `u32::MAX` |
| Cameras.ImageHeight | src/camera.rs:25 | the image height is at least 1; it is `trunc(width / aspect)` when that lies in `[1, u32::MAX]`, `u32::MAX` when the ratio is at least `u32::MAX`, and 1 when the ratio is below 2 or the aspect ratio is negative; a zero aspect ratio gives `u32::MAX` for a positive width and 1 for width 0, as IEEE division and the saturating cast do |
| Cameras.NormalColor | src/camera.rs:69 | the colour `0.5 * (n + (1, 1, 1))` of a normal, from which `2c - (1, 1, 1)` recovers the normal (in the unit cube for a unit normal: `NormalColorInUnitCube`) |
| Cameras.SkyColor | src/camera.rs:71-73 | the white to sky-blue blend with `a = 0.5 * (y + 1)` is `(0.75 - 0.25 y, 0.85 - 0.15 y, 1)` of the direction's `y` (bounds: `SkyColorBlend`) |
| Cameras.RayColorOf | src/camera.rs:66-74 | the colour of a ray: the normal colour of the hit the list scan records for `(0, +inf)`, else the sky colour of the unit direction (in the unit cube: `RayColorInUnitCube`) |
| Cameras.NormalColorInUnitCube | src/camera.rs:69 | `0.5 * (n + (1, 1, 1))` of a unit normal lies in the unit cube |
| Cameras.SkyColorBlend | src/camera.rs:71-73 | the background of a unit direction has x in `[0.5, 1]`, y in `[0.7, 1]` and z = 1; up gives `(0.5, 0.7, 1)` and down gives white |
| Cameras.RayColorInUnitCube | src/camera.rs:66-74 | every colour `ray_color` returns lies in the unit cube |
| Cameras.PixelLineInByteRange | src/camera.rs:60-61 | every pixel line written for a ray is three integers in `[0, 255]` |
| Cameras.ViewportGeometry | src/camera.rs:31-43 | for any focal length, viewport height and centre, the pixel spacing is `viewport_height / h` in both directions, and the first pixel centre is the upper-left corner moved in by half a pixel |
| Cameras.HeightTwo | src/camera.rs:32 | with viewport height 2, the spacing is `2 / h`, and the corner offsets are `(1 - w) / h` and `(h - 1) / h` |
| Cameras.ViewportGrid | src/camera.rs:31-43 | the viewport steps of `new` give `pixel_delta_u = (2/h, 0, 0)`, `pixel_delta_v = (0, -2/h, 0)` and `pixel00_loc = center + ((1 - w)/h, (h - 1)/h, -1)` |
| Cameras.Camera.Valid | src/camera.rs:21-45 | the fields `new` derives: height from `ImageHeight`, centre at the origin, deltas `(2/h, 0, 0)` and `(0, -2/h, 0)`, first pixel at `((1 - w)/h, (h - 1)/h, -1)` |
| Cameras.Camera.New | src/camera.rs:21-45 | `new` keeps the aspect ratio and width, and derives a height, deltas and first pixel satisfying `Valid()` |
| Cameras.Camera.ValidIsForward | src/camera.rs:21-45 | in a camera built by `new`, every pixel lies one unit in front of the centre along `-z` |
| Cameras.Camera.PixelCenter | src/camera.rs:55-57 | the pixel centre `pixel00_loc + i * delta_u + j * delta_v` (closed form: `PixelCenterClosedForm`) |
| Cameras.Camera.PixelRay | src/camera.rs:55-59 | the ray for pixel `(i, j)` starts at the centre and its direction reaches the pixel centre `pixel00_loc + i * delta_u + j * delta_v` |
| Cameras.Camera.PixelRaysForward | src/camera.rs:55-59 | every pixel ray has direction z = -1, so it is never the zero vector |
| Cameras.Camera.PixelCenterClosedForm | src/camera.rs:55-57 | pixel `(i, j)` is centred at `((1 - w + 2i)/h, (h - 1 - 2j)/h, -1)` |
| Cameras.Camera.GridSymmetric | src/camera.rs:55-57 | mirrored pixels have mirrored centres about the view axis |
| Cameras.Camera.GridInsideViewport | src/camera.rs:55-57 | every pixel centre lies strictly inside the viewport `(-w/h, w/h) x (-1, 1)` at `z = -1` |
| Cameras.RowLinesLayout | src/camera.rs:54-62 | a row of `n` pixels contributes `n` lines, pixel `i` at position `i` |
| Cameras.GridLinesLength | src/camera.rs:51-63 | `h` rows of `w` pixels give `h * w` lines |
| Cameras.GridLinesAt | src/camera.rs:51-63 | in row-major order, the line at `j * w + i` is pixel `(i, j)` |
| Cameras.HeaderThenGridAt | src/camera.rs:47-63 | after a three-line header, pixel `(i, j)` is at line `3 + j * w + i` |
| Cameras.Camera.Header | src/camera.rs:47-49 | the three header lines `P3`, `W H` in decimal, and `255` |
| Cameras.Camera.Image | src/camera.rs:47-63 | all of `render`'s output: the header, then the line of every pixel in row-major order (shape and order: `ImageShape`, `ImageAt`) |
| Cameras.Camera.ImageShape | src/camera.rs:47-63 | the image is the header `P3`, `W H`, `255` followed by exactly `W * H` lines |
| Cameras.Camera.ImageAt | src/camera.rs:51-63 | line `3 + j * W + i` of the image is `write_color` of the colour of the ray through pixel `(i, j)` |
| Cameras.Camera.RayColor | src/camera.rs:66-74 | `ray_color` returns `RayColorOf`: the normal colour of the hit `HittableList::hit` records for `(0, +inf)` (no farther than any meeting point there, by `ScanIsNearest`, though its own `t` may lie outside it), or the sky colour of the unit direction; the result lies in the unit cube |
| Cameras.Camera.RenderPixel | src/camera.rs:55-61 | one inner-loop step writes the line of pixel `(i, j)` |
| Cameras.Camera.RenderRow | src/camera.rs:54-62 | the inner loop writes the lines of row `j`, left to right, extending the row-major image by one row |
| Cameras.Camera.Render | src/camera.rs:46-65 | `render` outputs exactly the image: the header, then one line per pixel in row-major order (see `ImageShape` and `ImageAt`) |

## Left out

- Floating point: every `f64` is a real, so rounding, NaN, signed zero and
  overflow to infinity are not modelled. Infinite interval bounds are modelled.
  The cast at `src/camera.rs:25` models the IEEE result of dividing by a zero
  aspect ratio.
- Division by zero is excluded by preconditions, not modelled as infinity or NaN.
  - `Vectors.Div`, `Vectors.DivAssign` and `Vectors.Unit` require a non-zero divisor.
  - `Hittables.Sphere.Hit`, `Hittables.HittableList.Hit` and
    `Cameras.RayColorOf` require `|direction|^2 != 0` and non-zero radii.
  - `Cameras.Camera.New` requires a positive image width.
  - Every pixel ray of a camera built by `new` has a non-zero direction, so
    `render` loses nothing by this.
- `sqrt` is a parameter. Facts about it come only from `IsSqrt`, so
  `length()`'s rounding is not modelled.
- Randomness: `Vector::random`, `random_in_range` and `random_unit_vector`
  call a generator that is not part of this model, and their rejection loop
  has no bound. `random_on_hemisphere` is modelled with the random unit vector
  passed in.
- The `Display` impl of `Vector` is float-to-text formatting, which is not
  modelled.
- `src/rtweeknd.rs` holds only constants and `deg2rad`. `src/main.rs` is scene
  construction against signatures this revision does not have. Neither is modelled.
- Output: `render`'s `println!` lines and `write_color`'s `writeln!` become the
  returned sequence of lines. The progress messages and `flush().unwrap()` on
  standard error are not modelled, and neither is the `io::Result` of
  `write_color` or its `unwrap`.
- `Box<dyn Hittable>`: the world is a `HittableList` of spheres. Dynamic
  dispatch and lists nested inside lists are not modelled.
- `Index` with an index of 3 or more panics in the source. The model's
  `Vectors.Index`, `Vectors.WithComponent` and `Vectors.IndexMut` require `i < 3`.
- Hittables.HittableList.Hit: `tmp_record` is modelled as one fresh
  `HitRecord` per call, but the aliasing between it and `rec` is not (the
  source's `&mut` borrows already rule it out).
- Cameras.Camera.New: the temporary camera with zeroed fields that `new`
  starts from is not modelled; the fields are computed first and assembled at
  the end, with the same values.

## Findings

| source | as written | input that shows it | evidently intended | confidence | as-written member | corrected member |
|---|---|---|---|---|---|---|
| src/hittable.rs:63 | `let root = ...` makes a new binding inside the `if`. So when only the larger root lies inside `ray_t`, `rec.t` is still the smaller root, which is outside the interval. | A ray whose origin is strictly inside a sphere (for instance at its centre), tested on `(0, +inf)` as `ray_color` does: the smaller root is negative, the larger positive, and the negative one is recorded, a point behind the ray's origin. | Assign the larger root to the outer `root`, so the recorded `t` is the nearest meeting point strictly inside `ray_t`. | not executed | Hittables.ShadowedRootBehindOrigin | Hittables.CorrectedQueryIsNearestInside |

The imperative `Sphere.Hit`, the list scan and the camera keep the code as
written, so that what is proved about them holds for the program itself (the
recorded hit is still never farther than any meeting point inside `ray_t`, see
`Hittables.ScanIsNearest`). `Hittables.SphereQueryCorrected` is the corrected test, and
`Hittables.CorrectedQueryIsNearestInside` proves that it records a root inside
the interval, the nearest one there.
