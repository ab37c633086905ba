/**
 * Colours and their text form (src/color.rs): a colour is a vector of
 * red, green and blue in `[0, 1]`, written as one line of three decimal
 * bytes. The `as i32` cast of `f64` truncates toward zero and saturates
 * at the bounds of `i32`.
 */
module Colors {
  import opened Wrappers
  import opened Vectors
  import opened Decimals

  type Color = Vector

  const I32Min: int := -0x8000_0000
  const I32Max: int := 0x7FFF_FFFF

  /** Rounding toward zero. */
  function Truncate(x: real): (t: int)
    ensures 0.0 <= x ==> 0 <= t && t as real <= x < t as real + 1.0
    ensures x < 0.0 ==> t <= 0 && t as real - 1.0 < x <= t as real
  {
    if 0.0 <= x then x.Floor else -((-x).Floor)
  }

  /** `x as i32`: truncation toward zero, saturating at the `i32` bounds. */
  function TruncateToI32(x: real): (r: int)
    ensures I32Min <= r <= I32Max
    ensures I32Min <= Truncate(x) <= I32Max ==> r == Truncate(x)
    ensures Truncate(x) < I32Min ==> r == I32Min
    ensures I32Max < Truncate(x) ==> r == I32Max
  {
    var t := Truncate(x);
    if t < I32Min then I32Min else if I32Max < t then I32Max else t
  }

  /** One channel of `write_color`: `(255.999 * c) as i32`. */
  function ChannelByte(c: real): (b: int)
    ensures I32Min <= b <= I32Max
  {
    TruncateToI32(255.999 * c)
  }

  /** `write_color`: the line `"<r> <g> <b>\n"` for the colour `c`. */
  function WriteColor(c: Color): (line: string)
    ensures 0 < |line| && line[|line| - 1] == '\n'
  {
    IntToString(ChannelByte(c.x)) + " " + IntToString(ChannelByte(c.y)) + " "
      + IntToString(ChannelByte(c.z)) + "\n"
  }

  /** Reads one line of three space-separated integers. */
  function ParseColorLine(line: string): Option<(int, int, int)>
  {
    if |line| == 0 || line[|line| - 1] != '\n' then None
    else
      var f := Split(line[..|line| - 1]);
      if |f| == 3 && IsIntText(f[0]) && IsIntText(f[1]) && IsIntText(f[2])
      then Some((ParseInt(f[0]), ParseInt(f[1]), ParseInt(f[2])))
      else None
  }

  predicate InUnitCube(c: Color)
  {
    0.0 <= c.x <= 1.0 && 0.0 <= c.y <= 1.0 && 0.0 <= c.z <= 1.0
  }

  lemma TruncateMonotone(a: real, b: real)
    requires a <= b
    ensures Truncate(a) <= Truncate(b)
  {
  }

  /** Channel values in `[0, 1]` land in the byte range `[0, 255]`. */
  lemma ChannelByteRange(c: real)
    requires 0.0 <= c <= 1.0
    ensures 0 <= ChannelByte(c) <= 255
  {
    assert 0.0 <= 255.999 * c <= 255.999;
    TruncateMonotone(255.999 * c, 255.999);
    TruncateMonotone(0.0, 255.999 * c);
  }

  /** Black and full intensity map to 0 and 255. */
  lemma ChannelByteEndpoints()
    ensures ChannelByte(0.0) == 0 && ChannelByte(1.0) == 255
  {
  }

  /** A brighter channel never yields a smaller byte. */
  lemma ChannelByteMonotone(c1: real, c2: real)
    requires c1 <= c2
    ensures ChannelByte(c1) <= ChannelByte(c2)
  {
    TruncateMonotone(255.999 * c1, 255.999 * c2);
  }

  /** Truncation goes toward zero: a slightly negative channel is written as
      0, not as -1. */
  lemma SmallNegativeChannelIsZero(c: real)
    requires -1.0 < 255.999 * c <= 0.0
    ensures ChannelByte(c) == 0
  {
  }

  /** A channel above the `i32` range saturates instead of wrapping. */
  lemma HugeChannelSaturates(c: real)
    requires 2147483648.0 <= 255.999 * c
    ensures ChannelByte(c) == I32Max
  {
  }

  lemma SplitThree(a: string, b: string, c: string)
    requires ' ' !in a && ' ' !in b && ' ' !in c
    ensures Split(a + " " + b + " " + c) == [a, b, c]
  {
    assert a + " " + b + " " + c == a + " " + (b + " " + c);
    SplitAtSpace(a, b + " " + c);
    SplitAtSpace(b, c);
    SplitNoSpace(c);
  }

  /** Three integers written as `write_color` writes them read back. */
  lemma TripleParses(x: int, y: int, z: int)
    ensures ParseColorLine(IntToString(x) + " " + IntToString(y) + " " + IntToString(z) + "\n")
            == Some((x, y, z))
  {
    var r, g, b := IntToString(x), IntToString(y), IntToString(z);
    var line := r + " " + g + " " + b + "\n";
    assert line[..|line| - 1] == r + " " + g + " " + b;
    SplitThree(r, g, b);
    IntToStringRoundTrip(x);
    IntToStringRoundTrip(y);
    IntToStringRoundTrip(z);
  }

  /** The line `write_color` writes reads back as the three channel bytes. */
  lemma WriteColorParses(c: Color)
    ensures ParseColorLine(WriteColor(c))
            == Some((ChannelByte(c.x), ChannelByte(c.y), ChannelByte(c.z)))
  {
    TripleParses(ChannelByte(c.x), ChannelByte(c.y), ChannelByte(c.z));
  }

  /** A colour inside the unit cube is written as a valid PPM pixel: three
      integers in `[0, 255]`. */
  lemma WriteColorInByteRange(c: Color)
    requires InUnitCube(c)
    ensures var p := ParseColorLine(WriteColor(c));
      && p.Some?
      && 0 <= p.value.0 <= 255 && 0 <= p.value.1 <= 255 && 0 <= p.value.2 <= 255
  {
    WriteColorParses(c);
    ChannelByteRange(c.x);
    ChannelByteRange(c.y);
    ChannelByteRange(c.z);
  }
}
