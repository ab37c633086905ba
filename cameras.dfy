/**
 * The camera (src/camera.rs): the viewport and pixel grid derived from the
 * aspect ratio and image width, the colour of one ray, and `render`, which
 * writes the image as plain PPM text, one line per `println!`/`writeln!`.
 * Standard output is the returned sequence of lines; the progress messages
 * on standard error are not modelled. The world is a `HittableList`.
 */
module Cameras {
  import opened Wrappers
  import opened Vectors
  import opened Rays
  import opened Intervals
  import opened Hittables
  import opened Decimals
  import opened Colors

  const U32Max: int := 0xFFFF_FFFF

  type U32 = x: int | 0 <= x <= U32Max

  /** `x as u32` for an `f64`: truncation toward zero, saturating at 0 and at
      `u32::MAX`. */
  function SaturatingU32(x: real): (r: U32)
    ensures x < 1.0 ==> r == 0
    ensures 0.0 <= x < U32Max as real + 1.0 ==> r as real <= x < r as real + 1.0
    ensures U32Max as real <= x ==> r == U32Max
  {
    var t := Truncate(x);
    if t < 0 then 0 else if U32Max < t then U32Max else t
  }

  /** The image height `((image_width as f64 / aspect_ratio) as u32).max(1)`.
      Division by a zero aspect ratio follows IEEE 754: a positive width gives
      infinity, which saturates to `u32::MAX`, and `0.0 / 0.0` is NaN, which
      casts to 0. */
  function ImageHeight(aspectRatio: real, imageWidth: U32): (h: U32)
    ensures 1 <= h
    ensures aspectRatio != 0.0 && 1.0 <= imageWidth as real / aspectRatio < U32Max as real + 1.0 ==>
              h as real <= imageWidth as real / aspectRatio < h as real + 1.0
    ensures aspectRatio != 0.0 && imageWidth as real / aspectRatio < 2.0 ==> h == 1
    ensures aspectRatio < 0.0 ==> h == 1
    ensures aspectRatio != 0.0 && U32Max as real <= imageWidth as real / aspectRatio ==> h == U32Max
    ensures aspectRatio == 0.0 ==> h == (if imageWidth == 0 then 1 else U32Max)
  {
    if aspectRatio == 0.0 then (if imageWidth == 0 then 1 else U32Max)
    else
      var t := SaturatingU32(imageWidth as real / aspectRatio);
      if t < 1 then 1 else t
  }

  /** `0.5 * (normal + (1, 1, 1))`: the colour that shows a unit normal. */
  function NormalColor(n: Vector): (c: Color)
    ensures Sub(ScalarMul(2.0, c), Vector(1.0, 1.0, 1.0)) == n
  {
    ScalarMul(0.5, Add(n, Vector(1.0, 1.0, 1.0)))
  }

  /** The background: a blend from white (`a = 0`) to sky blue (`a = 1`) by
      `a = 0.5 * (y + 1)` of the unit direction. */
  function SkyColor(unitDirection: Vector): (c: Color)
    ensures c == Vector(0.75 - 0.25 * unitDirection.y, 0.85 - 0.15 * unitDirection.y, 1.0)
  {
    var a := 0.5 * (unitDirection.y + 1.0);
    Add(ScalarMul(1.0 - a, Vector(1.0, 1.0, 1.0)), ScalarMul(a, Vector(0.5, 0.7, 1.0)))
  }

  /** The colour `ray_color` computes for `r` in the world `objects`: the
      normal colour of the hit `HittableList::hit` records for `(0, +inf)`,
      else the background for the ray's direction. That hit is no farther
      than any meeting point inside `(0, +inf)` (`ScanIsNearest`), but its
      own `t` may lie outside it (`ShadowedRootBehindOrigin`). */
  function RayColorOf(r: Ray, objects: seq<Sphere>, sqrt: real -> real): Color
    requires A(r) != 0.0 && NonZeroRadii(objects) && IsSqrt(sqrt)
  {
    var st := Scan(objects, r, Interval(Fin(0.0), PosInf), sqrt);
    if st.found.Some? then NormalColor(st.found.value.normal)
    else
      LengthSquaredIsSelfDot(r.direction);
      UnitHasLengthOne(r.direction, sqrt);
      SkyColor(Unit(r.direction, sqrt))
  }

  /** Unit normals are shown as colours inside the unit cube. */
  lemma NormalColorInUnitCube(n: Vector)
    requires LengthSquared(n) == 1.0
    ensures InUnitCube(NormalColor(n))
  {
    UnitComponents(n);
  }

  /** The background of a unit direction lies between white and sky blue;
      each component lies between those of the two; looking straight up
      gives sky blue, straight down gives white. */
  lemma SkyColorBlend(u: Vector)
    requires LengthSquared(u) == 1.0
    ensures InUnitCube(SkyColor(u))
    ensures u.y == 1.0 ==> SkyColor(u) == Vector(0.5, 0.7, 1.0)
    ensures u.y == -1.0 ==> SkyColor(u) == Vector(1.0, 1.0, 1.0)
    ensures 0.5 <= SkyColor(u).x <= 1.0 && 0.7 <= SkyColor(u).y <= 1.0 && SkyColor(u).z == 1.0
  {
    UnitComponents(u);
  }

  /** Every colour `ray_color` returns lies in the unit cube. */
  lemma RayColorInUnitCube(r: Ray, objects: seq<Sphere>, sqrt: real -> real)
    requires A(r) != 0.0 && NonZeroRadii(objects) && IsSqrt(sqrt)
    ensures InUnitCube(RayColorOf(r, objects, sqrt))
  {
    var st := Scan(objects, r, Interval(Fin(0.0), PosInf), sqrt);
    ScanFoundOnSurface(objects, r, Interval(Fin(0.0), PosInf), sqrt);
    if st.found.Some? {
      NormalColorInUnitCube(st.found.value.normal);
    } else {
      LengthSquaredIsSelfDot(r.direction);
      UnitHasLengthOne(r.direction, sqrt);
      SkyColorBlend(Unit(r.direction, sqrt));
    }
  }

  /** Every pixel line a ray produces is three integers in `[0, 255]`. */
  lemma PixelLineInByteRange(r: Ray, objects: seq<Sphere>, sqrt: real -> real)
    requires A(r) != 0.0 && NonZeroRadii(objects) && IsSqrt(sqrt)
    ensures var p := ParseColorLine(WriteColor(RayColorOf(r, objects, sqrt)));
      && p.Some?
      && 0 <= p.value.0 <= 255 && 0 <= p.value.1 <= 255 && 0 <= p.value.2 <= 255
  {
    RayColorInUnitCube(r, objects, sqrt);
    WriteColorInByteRange(RayColorOf(r, objects, sqrt));
  }

  /** The derivation in `Camera::new` for a width `w`, a height `h`, a focal
      length `f`, a viewport `vw` by `vh` with `vw = vh * (w / h)` and the
      camera centre `c`: the pixel spacing is `vh / h` in both directions,
      and the first pixel centre is the upper-left corner of the viewport
      moved by half a pixel. */
  lemma ViewportGeometry(w: real, h: real, f: real, vh: real, vw: real, c: Point, du: Vector, dv: Vector, p00: Point)
    requires 0.0 < w && 0.0 < h && vw == vh * (w / h)
    requires du == Div(Vector(vw, 0.0, 0.0), w) && dv == Div(Vector(0.0, -vh, 0.0), h)
    requires p00 == Add(Sub(Sub(Sub(c, Vector(0.0, 0.0, f)), Div(Vector(0.0, -vh, 0.0), 2.0)), Div(Vector(vw, 0.0, 0.0), 2.0)),
                        ScalarMul(0.5, Add(du, dv)))
    ensures du == Vector(vh / h, 0.0, 0.0) && dv == Vector(0.0, -(vh / h), 0.0)
    ensures p00 == Vector(c.x + vh * (1.0 - w) / (2.0 * h), c.y + vh * (h - 1.0) / (2.0 * h), c.z - f)
  {
    assert vw / w == vh / h by { ColumnSpacing(w, h, vh, vw); }
    assert -(vw / 2.0) + 0.5 * (vh / h) == vh * (1.0 - w) / (2.0 * h) by { FirstColumn(w, h, vh, vw); }
    assert vh / 2.0 - 0.5 * (vh / h) == vh * (h - 1.0) / (2.0 * h) by { FirstRow(h, vh); }
  }

  lemma ColumnSpacing(w: real, h: real, vh: real, vw: real)
    requires 0.0 < w && 0.0 < h && vw == vh * (w / h)
    ensures vw / w == vh / h
  {
    var q := w / h;
    assert q * h == w;
    assert (vh / h) * w == vh * q;
  }

  lemma FirstColumn(w: real, h: real, vh: real, vw: real)
    requires 0.0 < w && 0.0 < h && vw == vh * (w / h)
    ensures -(vw / 2.0) + 0.5 * (vh / h) == vh * (1.0 - w) / (2.0 * h)
  {
    assert vw / 2.0 == vh * w / (2.0 * h);
    assert 0.5 * (vh / h) == vh / (2.0 * h);
    assert vh / (2.0 * h) - vh * w / (2.0 * h) == (vh - vh * w) / (2.0 * h);
  }

  lemma FirstRow(h: real, vh: real)
    requires 0.0 < h
    ensures vh / 2.0 - 0.5 * (vh / h) == vh * (h - 1.0) / (2.0 * h)
  {
    assert vh / 2.0 == vh * h / (2.0 * h);
    assert 0.5 * (vh / h) == vh / (2.0 * h);
    assert vh * h / (2.0 * h) - vh / (2.0 * h) == (vh * h - vh) / (2.0 * h);
  }

  /** The closed forms for the viewport height 2. */
  lemma HeightTwo(w: real, h: real, vh: real)
    requires 0.0 < h && vh == 2.0
    ensures vh / h == 2.0 / h
    ensures vh * (1.0 - w) / (2.0 * h) == (1.0 - w) / h
    ensures vh * (h - 1.0) / (2.0 * h) == (h - 1.0) / h
  {
  }

  /** The viewport part of `Camera::new` for an image `w` by `h` seen from
      `c`: focal length 1, a viewport 2 high and `2 * (w / h)` wide, the pixel
      spacing, and the centre of the upper-left pixel. */
  method ViewportGrid(c: Point, w: real, h: real) returns (deltaU: Vector, deltaV: Vector, p00: Point)
    requires 0.0 < w && 0.0 < h
    ensures deltaU == Vector(2.0 / h, 0.0, 0.0)
    ensures deltaV == Vector(0.0, -(2.0 / h), 0.0)
    ensures p00 == Vector(c.x + (1.0 - w) / h, c.y + (h - 1.0) / h, c.z - 1.0)
  {
    var focalLength := 1.0;
    var viewportHeight := 2.0;
    var viewportWidth := viewportHeight * (w / h);
    var viewportU := Vector(viewportWidth, 0.0, 0.0);
    var viewportV := Vector(0.0, -viewportHeight, 0.0);
    deltaU := Div(viewportU, w);
    deltaV := Div(viewportV, h);
    var upperLeft := Sub(Sub(Sub(c, Vector(0.0, 0.0, focalLength)), Div(viewportV, 2.0)), Div(viewportU, 2.0));
    p00 := Add(upperLeft, ScalarMul(0.5, Add(deltaU, deltaV)));
    ViewportGeometry(w, h, focalLength, viewportHeight, viewportWidth, c, deltaU, deltaV, p00);
    HeightTwo(w, h, viewportHeight);
  }

  /** The lines of the first `n` pixels of row `j`, left to right, for any
      pixel-to-line map `pixel`. */
  function RowLines(pixel: (nat, nat) -> string, j: nat, n: nat): seq<string>
  {
    if n == 0 then [] else RowLines(pixel, j, n - 1) + [pixel(n - 1, j)]
  }

  /** The lines of the first `h` rows of `w` pixels, top to bottom. */
  function GridLines(pixel: (nat, nat) -> string, w: nat, h: nat): seq<string>
  {
    if h == 0 then [] else GridLines(pixel, w, h - 1) + RowLines(pixel, h - 1, w)
  }

  lemma {:induction false} RowLinesLayout(pixel: (nat, nat) -> string, j: nat, n: nat)
    ensures |RowLines(pixel, j, n)| == n
    ensures forall i :: 0 <= i < n ==> RowLines(pixel, j, n)[i] == pixel(i, j)
  {
    if n > 0 {
      RowLinesLayout(pixel, j, n - 1);
    }
  }

  /** Where position `j * w + i` falls once row `h - 1` follows the first
      `h - 1` rows of `w` pixels. */
  lemma RowMajorIndex(j: nat, i: nat, w: nat, h: nat)
    requires j < h && i < w
    ensures j * w + i < h * w
    ensures j < h - 1 ==> j * w + i < (h - 1) * w
    ensures j == h - 1 ==> j * w + i == (h - 1) * w + i
  {
    assert (j + 1) * w == j * w + w;
    assert h * w == (h - 1) * w + w;
    if j < h - 1 {
      assert (j + 1) * w <= (h - 1) * w;
    }
  }

  lemma {:induction false} GridLinesLength(pixel: (nat, nat) -> string, w: nat, h: nat)
    ensures |GridLines(pixel, w, h)| == h * w
  {
    if h > 0 {
      GridLinesLength(pixel, w, h - 1);
      RowLinesLayout(pixel, h - 1, w);
      assert h * w == (h - 1) * w + w;
    }
  }

  /** Row-major order: the line at `j * w + i` is pixel `(i, j)`. */
  lemma {:induction false} GridLinesAt(pixel: (nat, nat) -> string, w: nat, h: nat, j: nat, i: nat)
    requires j < h && i < w
    ensures j * w + i < |GridLines(pixel, w, h)|
    ensures GridLines(pixel, w, h)[j * w + i] == pixel(i, j)
  {
    var prev, row := GridLines(pixel, w, h - 1), RowLines(pixel, h - 1, w);
    assert GridLines(pixel, w, h) == prev + row;
    GridLinesLength(pixel, w, h - 1);
    RowLinesLayout(pixel, h - 1, w);
    RowMajorIndex(j, i, w, h);
    var k := j * w + i;
    if j < h - 1 {
      assert k < |prev|;
      GridLinesAt(pixel, w, h - 1, j, i);
      assert (prev + row)[k] == prev[k];
    } else {
      assert k == |prev| + i;
      assert (prev + row)[k] == row[i];
    }
  }

  /** The same position after three header lines. */
  lemma HeaderThenGridAt(header: seq<string>, pixel: (nat, nat) -> string, w: nat, h: nat, j: nat, i: nat)
    requires |header| == 3 && j < h && i < w
    ensures 3 + j * w + i < |header + GridLines(pixel, w, h)|
    ensures (header + GridLines(pixel, w, h))[3 + j * w + i] == pixel(i, j)
  {
    GridLinesAt(pixel, w, h, j, i);
  }

  /** The camera fixed by `Camera::new`; nothing changes it afterwards. */
  datatype Camera = Camera(aspectRatio: real, imageWidth: U32, imageHeight: U32, center: Point,
                           pixel00Loc: Point, pixelDeltaU: Vector, pixelDeltaV: Vector)
  {
    /** The relations `Camera::new` establishes between the fields: the
        viewport is 2 high at focal length 1 in front of the origin, and the
        grid of `w` by `h` pixel centres is inset by half a pixel. */
    predicate Valid()
    {
      var w, h := imageWidth as real, imageHeight as real;
      && 1 <= imageWidth && 1 <= imageHeight
      && imageHeight == ImageHeight(aspectRatio, imageWidth)
      && center == Zero()
      && pixelDeltaU == Vector(2.0 / h, 0.0, 0.0)
      && pixelDeltaV == Vector(0.0, -(2.0 / h), 0.0)
      && pixel00Loc == Vector(center.x + (1.0 - w) / h, center.y + (h - 1.0) / h, center.z - 1.0)
    }

    /** Every pixel ray points one unit toward `-z`, so no ray direction is the
        zero vector. This is all `render` relies on. */
    predicate Forward()
    {
      pixel00Loc.z - center.z == -1.0 && pixelDeltaU.z == 0.0 && pixelDeltaV.z == 0.0
    }

    /** `Camera::new`. A zero width divides by zero in the pixel spacing. */
    static method New(aspectRatio: real, imageWidth: U32) returns (cam: Camera)
      requires 0 < imageWidth
      ensures cam.aspectRatio == aspectRatio && cam.imageWidth == imageWidth
      ensures cam.Valid() && cam.Forward()
    {
      var h := ImageHeight(aspectRatio, imageWidth);
      var c := Zero();
      var deltaU, deltaV, p00 := ViewportGrid(c, imageWidth as real, h as real);
      cam := Camera(aspectRatio, imageWidth, h, c, p00, deltaU, deltaV);
    }

    lemma ValidIsForward()
      requires Valid()
      ensures Forward()
    {
    }

    /** The centre of pixel `(i, j)`: column `i`, row `j` from the top. */
    function PixelCenter(i: nat, j: nat): Point
    {
      Add(Add(pixel00Loc, ScalarMul(i as real, pixelDeltaU)), ScalarMul(j as real, pixelDeltaV))
    }

    /** The ray from the camera centre through the centre of pixel `(i, j)`. */
    function PixelRay(i: nat, j: nat): (r: Ray)
      ensures r.origin == center && Add(r.origin, r.direction) == PixelCenter(i, j)
    {
      Ray(center, Sub(PixelCenter(i, j), center))
    }

    /** The position in the output of the line for pixel `(i, j)`: after the
        three header lines, row by row. */
    function PixelLine(i: nat, j: nat): nat
    {
      3 + j * imageWidth + i
    }

    /** Pixel rays of a forward camera have a non-zero direction. */
    lemma PixelRaysForward()
      requires Forward()
      ensures forall i: nat, j: nat :: PixelRay(i, j).direction.z == -1.0 && 1.0 <= A(PixelRay(i, j))
    {
    }

    /** In a camera built by `new`, pixel `(i, j)` is centred at
        `((1 - w + 2i) / h, (h - 1 - 2j) / h, -1)`: the grid is symmetric about
        the view axis, with neighbouring centres `2 / h` apart. */
    lemma PixelCenterClosedForm(i: nat, j: nat)
      requires Valid()
      ensures var w, h := imageWidth as real, imageHeight as real;
              PixelCenter(i, j) == Vector((1.0 - w + 2.0 * i as real) / h, (h - 1.0 - 2.0 * j as real) / h, -1.0)
    {
      var w, h := imageWidth as real, imageHeight as real;
      Spaced(1.0 - w, i as real, h);
      Spaced(h - 1.0, -(j as real), h);
      assert j as real * -(2.0 / h) == -(j as real) * (2.0 / h);
    }

    /** Mirrored pixels have mirrored centres: the grid is symmetric about
        the view axis. */
    lemma GridSymmetric(i: nat, j: nat)
      requires Valid() && i < imageWidth && j < imageHeight
      ensures PixelCenter(i, j).x == -PixelCenter(imageWidth - 1 - i, j).x
      ensures PixelCenter(i, j).y == -PixelCenter(i, imageHeight - 1 - j).y
    {
      PixelCenterClosedForm(i, j);
      PixelCenterClosedForm(imageWidth - 1 - i, j);
      PixelCenterClosedForm(i, imageHeight - 1 - j);
      Mirror(imageWidth as real, imageHeight as real, i as real, (imageWidth - 1 - i) as real);
      Mirror(imageHeight as real, imageHeight as real, j as real, (imageHeight - 1 - j) as real);
    }

    /** Every pixel centre lies strictly inside the viewport
        `(-w/h, w/h) x (-1, 1)` at `z = -1`. */
    lemma GridInsideViewport(i: nat, j: nat)
      requires Valid() && i < imageWidth && j < imageHeight
      ensures -(imageWidth as real / imageHeight as real) < PixelCenter(i, j).x < imageWidth as real / imageHeight as real
      ensures -1.0 < PixelCenter(i, j).y < 1.0
      ensures PixelCenter(i, j).z == -1.0
    {
      PixelCenterClosedForm(i, j);
      Inside(imageWidth as real, imageHeight as real, i as real);
      Inside(imageHeight as real, imageHeight as real, j as real);
      assert imageHeight as real / imageHeight as real == 1.0;
    }

    /** The colour line `render` writes for pixel `(i, j)`. */
    function PixelText(i: nat, j: nat, objects: seq<Sphere>, sqrt: real -> real): string
      requires Forward() && NonZeroRadii(objects) && IsSqrt(sqrt)
    {
      PixelRaysForward();
      WriteColor(RayColorOf(PixelRay(i, j), objects, sqrt))
    }

    /** `PixelText` as a map from pixels to lines. */
    ghost function Pixels(objects: seq<Sphere>, sqrt: real -> real): (nat, nat) -> string
      requires Forward() && NonZeroRadii(objects) && IsSqrt(sqrt)
    {
      (i: nat, j: nat) => PixelText(i, j, objects, sqrt)
    }

    /** The three header lines of a plain PPM image: the magic `P3`, the
        width and height, and the maximum channel value 255. */
    function Header(): seq<string>
    {
      ["P3\n", NatToString(imageWidth) + " " + NatToString(imageHeight) + "\n", "255\n"]
    }

    /** Everything `render` prints for the world `objects`. */
    ghost function Image(objects: seq<Sphere>, sqrt: real -> real): seq<string>
      requires Forward() && NonZeroRadii(objects) && IsSqrt(sqrt)
    {
      Header() + GridLines(Pixels(objects, sqrt), imageWidth, imageHeight)
    }

    /** The image is the three header lines followed by `w * h` pixel lines. */
    lemma ImageShape(objects: seq<Sphere>, sqrt: real -> real)
      requires Forward() && NonZeroRadii(objects) && IsSqrt(sqrt)
      ensures |Image(objects, sqrt)| == 3 + imageWidth * imageHeight
      ensures Image(objects, sqrt)[..3] == Header()
    {
      var pixel := Pixels(objects, sqrt);
      var header, lines := Header(), GridLines(pixel, imageWidth, imageHeight);
      assert Image(objects, sqrt) == header + lines;
      GridLinesLength(pixel, imageWidth, imageHeight);
      assert imageHeight * imageWidth == imageWidth * imageHeight;
      assert (header + lines)[..3] == header;
    }

    /** Pixel lines come in row-major order: the line at `3 + j * w + i`
        shows pixel `(i, j)`. */
    lemma ImageAt(objects: seq<Sphere>, sqrt: real -> real, i: nat, j: nat)
      requires Forward() && NonZeroRadii(objects) && IsSqrt(sqrt)
      requires i < imageWidth && j < imageHeight
      ensures PixelLine(i, j) < |Image(objects, sqrt)|
      ensures Image(objects, sqrt)[PixelLine(i, j)] == PixelText(i, j, objects, sqrt)
    {
      HeaderThenGridAt(Header(), Pixels(objects, sqrt), imageWidth, imageHeight, j, i);
    }

    /** `ray_color`: the hit `world` records for `r` on `(0, +inf)`, shown by
        its normal, or the background. */
    method RayColor(r: Ray, world: HittableList, sqrt: real -> real) returns (c: Color)
      requires A(r) != 0.0 && world.Valid() && IsSqrt(sqrt)
      ensures c == RayColorOf(r, world.objects, sqrt)
      ensures InUnitCube(c)
    {
      RayColorInUnitCube(r, world.objects, sqrt);
      var rec := new HitRecord();
      var hit := world.Hit(r, Interval(Fin(0.0), PosInf), rec, sqrt);
      if hit {
        return ScalarMul(0.5, Add(rec.normal, Vector(1.0, 1.0, 1.0)));
      }
      LengthSquaredIsSelfDot(r.direction);
      UnitHasLengthOne(r.direction, sqrt);
      var unitDirection := Unit(r.direction, sqrt);
      var a := 0.5 * (unitDirection.y + 1.0);
      c := Add(ScalarMul(1.0 - a, Vector(1.0, 1.0, 1.0)), ScalarMul(a, Vector(0.5, 0.7, 1.0)));
    }

    /** One step of the inner loop of `render`: trace the ray through the
        centre of pixel `(i, j)` and format its colour. */
    method RenderPixel(world: HittableList, sqrt: real -> real, i: nat, j: nat) returns (line: string)
      requires Forward() && world.Valid() && IsSqrt(sqrt)
      ensures line == Pixels(world.objects, sqrt)(i, j)
    {
      PixelRaysForward();
      var pixelCenter := Add(Add(pixel00Loc, ScalarMul(i as real, pixelDeltaU)), ScalarMul(j as real, pixelDeltaV));
      var rayDirection := Sub(pixelCenter, center);
      var r := Ray(center, rayDirection);
      assert r == PixelRay(i, j);
      var pixelColor := RayColor(r, world, sqrt);
      line := WriteColor(pixelColor);
    }

    /** `render`: the header, then one colour line per pixel, rows top to
        bottom and each row left to right (see `ImageAt`). */
    method Render(world: HittableList, sqrt: real -> real) returns (out: seq<string>)
      requires Forward() && world.Valid() && IsSqrt(sqrt)
      ensures out == Image(world.objects, sqrt)
    {
      var lines := [];
      for j := 0 to imageHeight
        invariant lines == GridLines(Pixels(world.objects, sqrt), imageWidth, j)
      {
        var row := RenderRow(world, sqrt, j);
        lines := lines + row;
      }
      out := Header() + lines;
    }

    /** The inner loop of `render`: row `j`, left to right, one colour line
        per pixel. */
    method RenderRow(world: HittableList, sqrt: real -> real, j: nat) returns (row: seq<string>)
      requires Forward() && world.Valid() && IsSqrt(sqrt)
      ensures row == RowLines(Pixels(world.objects, sqrt), j, imageWidth)
      ensures GridLines(Pixels(world.objects, sqrt), imageWidth, j + 1)
                == GridLines(Pixels(world.objects, sqrt), imageWidth, j) + row
    {
      row := [];
      for i := 0 to imageWidth
        invariant row == RowLines(Pixels(world.objects, sqrt), j, i)
      {
        var line := RenderPixel(world, sqrt, i, j);
        row := row + [line];
      }
    }
  }

  /** Pixel `k` and pixel `n - 1 - k` of a row or column of `n` sit at
      opposite offsets `(1 - n + 2k) / h`. */
  lemma Mirror(n: real, h: real, k: real, k': real)
    requires 0.0 < h && k' == n - 1.0 - k
    ensures (1.0 - n + 2.0 * k') / h == -((1.0 - n + 2.0 * k) / h)
    ensures (n - 1.0 - 2.0 * k') / h == -((n - 1.0 - 2.0 * k) / h)
  {
    assert 1.0 - n + 2.0 * k' == -(1.0 - n + 2.0 * k);
    assert n - 1.0 - 2.0 * k' == -(n - 1.0 - 2.0 * k);
  }

  /** `k` steps of `2 / h` from `a / h`. */
  lemma Spaced(a: real, k: real, h: real)
    requires 0.0 < h
    ensures a / h + k * (2.0 / h) == (a + 2.0 * k) / h
  {
    assert k * (2.0 / h) == (2.0 * k) / h;
  }

  /** For `0 <= k < n`, the offset `(1 - n + 2k) / h` lies strictly between
      `-n / h` and `n / h`. */
  lemma Inside(n: real, h: real, k: real)
    requires 0.0 < h && 0.0 <= k && k + 1.0 <= n
    ensures -(n / h) < (1.0 - n + 2.0 * k) / h < n / h
    ensures -(n / h) < (n - 1.0 - 2.0 * k) / h < n / h
  {
    DivBelow(1.0 - n + 2.0 * k, n, h);
    DivBelow(n - 1.0 - 2.0 * k, n, h);
  }

  lemma DivBelow(a: real, n: real, h: real)
    requires 0.0 < h && -n < a < n
    ensures -(n / h) < a / h < n / h
  {
    assert a / h < n / h;
    assert -n / h < a / h;
  }
}
