/** The glyph mapper (`pixels_to_ascii` of ascii_converter.py): vertical
    decimation, integer luminance and the luminance-to-character ramp. */
module Glyphs {
  import opened Types
  import opened Arith

  /** `(30 r + 59 g + 11 b) // 100`: perceived brightness with integer weights
      that sum to 100. */
  function Luminance(p: Pixel): (gray: int)
    ensures 0 <= gray <= 255
  {
    (30 * p.r + 59 * p.g + 11 * p.b) / 100
  }

  /** `gray * (len(ramp) - 1) // 255`: the ramp position of a luminance. */
  function RampIndex(gray: int, rampLength: nat): (i: int)
    requires 0 <= gray <= 255 && rampLength > 0
    ensures 0 <= i < rampLength
  {
    MulLeq(gray, 255, rampLength - 1);
    QuotientAtMost(gray * (rampLength - 1), 255, rampLength - 1);
    gray * (rampLength - 1) / 255
  }

  /** The character a pixel is drawn with. */
  function Glyph(p: Pixel, ramp: string): char
    requires |ramp| > 0
  {
    ramp[RampIndex(Luminance(p), |ramp|)]
  }

  /** One output line: the glyph of every pixel of `row`, appended left to right
      as `ascii_row += ...` does. The ramp is indexed only when the row has a pixel. */
  function RowToLine(row: seq<Pixel>, ramp: string): (line: string)
    requires |ramp| > 0 || |row| == 0
    ensures |line| == |row|
    ensures forall x :: 0 <= x < |row| ==> line[x] == Glyph(row[x], ramp)
  {
    if |row| == 0 then ""
    else RowToLine(row[..|row| - 1], ramp) + [Glyph(row[|row| - 1], ramp)]
  }

  /** Row `y` is kept when `y % vertical_scale == 0`. Python's floored `%` and
      Dafny's Euclidean `%` differ for a negative divisor, but both are zero
      exactly when the divisor divides `y`. */
  predicate Keeps(y: nat, verticalScale: int)
    requires verticalScale != 0
  {
    y % verticalScale == 0
  }

  /** The conditions under which `pixels_to_ascii` raises nothing: a zero vertical
      scale divides by zero at the first row, and an empty ramp fails at the first
      pixel of a kept row. */
  predicate CanMap(pixels: seq<seq<Pixel>>, ramp: string, verticalScale: int)
    ensures |pixels| > 0 && verticalScale == 0 ==> !CanMap(pixels, ramp, verticalScale)
    ensures |pixels| > 0 && |pixels[0]| > 0 && |ramp| == 0 ==> !CanMap(pixels, ramp, verticalScale)
    ensures |ramp| > 0 && (|pixels| == 0 || verticalScale != 0) ==> CanMap(pixels, ramp, verticalScale)
  {
    && (|pixels| == 0 || verticalScale != 0)
    && (|ramp| > 0 ||
        forall y :: 0 <= y < |pixels| && verticalScale != 0 && Keeps(y, verticalScale) ==> |pixels[y]| == 0)
  }

  /** A negative vertical scale keeps the same rows as its absolute value. */
  lemma KeepsAbs(y: nat, verticalScale: int)
    requires verticalScale != 0
    ensures Keeps(y, verticalScale) <==> y % Abs(verticalScale) == 0
  {
    if verticalScale < 0 {
      var a, q, t := -verticalScale, y / verticalScale, y % verticalScale;
      assert y == verticalScale * q + t && 0 <= t < a;
      assert verticalScale * q == (-q) * a;
      DivIsFloor(y, a, -q);
      assert y % a == t;
    }
  }

  /** The lines of rows 0 .. n-1, in order, skipping rows that are not kept. */
  function MapRows(pixels: seq<seq<Pixel>>, ramp: string, verticalScale: int, n: nat): (lines: seq<string>)
    requires n <= |pixels| && CanMap(pixels, ramp, verticalScale)
    ensures n > 0 ==> |lines| == CeilDiv(n, Abs(verticalScale))
    ensures n == 0 ==> lines == []
    ensures forall k :: 0 <= k < |lines| ==>
              && verticalScale != 0
              && k * Abs(verticalScale) < n
              && (|ramp| > 0 || |pixels[k * Abs(verticalScale)]| == 0)
              && lines[k] == RowToLine(pixels[k * Abs(verticalScale)], ramp)
  {
    if n == 0 then []
    else
      var y := n - 1;
      var a := Abs(verticalScale);
      var earlier := MapRows(pixels, ramp, verticalScale, y);
      CeilDivStep(y, a);
      KeepsAbs(y, verticalScale);
      if Keeps(y, verticalScale) then
        assert y == 0 ==> earlier == [];
        assert |earlier| * a == y by {
          if y > 0 {
            assert |earlier| == CeilDiv(y, a);
          } else {
            assert |earlier| == 0;
          }
        }
        earlier + [RowToLine(pixels[y], ramp)]
      else
        assert y > 0;
        earlier
  }

  /** `pixels_to_ascii(pixels, ramp, vertical_scale)`. */
  function PixelsToAscii(pixels: seq<seq<Pixel>>, ramp: string, verticalScale: int): (lines: seq<string>)
    requires CanMap(pixels, ramp, verticalScale)
    ensures |pixels| == 0 ==> lines == []
    ensures |pixels| > 0 ==> verticalScale != 0 && |lines| == CeilDiv(|pixels|, Abs(verticalScale))
    ensures forall k :: 0 <= k < |lines| ==>
              && verticalScale != 0
              && k * Abs(verticalScale) < |pixels|
              && (|ramp| > 0 || |pixels[k * Abs(verticalScale)]| == 0)
              && lines[k] == RowToLine(pixels[k * Abs(verticalScale)], ramp)
  {
    MapRows(pixels, ramp, verticalScale, |pixels|)
  }

  /** Brighter channels never give a darker luminance. */
  lemma LuminanceMonotone(p: Pixel, q: Pixel)
    requires p.r <= q.r && p.g <= q.g && p.b <= q.b
    ensures Luminance(p) <= Luminance(q)
  {
    DivLeq(30 * p.r + 59 * p.g + 11 * p.b, 30 * q.r + 59 * q.g + 11 * q.b, 100);
  }

  /** The weights sum to 100, so a grey pixel's luminance is its channel value. */
  lemma LuminanceOfGrey(v: Byte)
    ensures Luminance(Pixel(v, v, v)) == v
  {
    DivIsFloor(100 * v, 100, v);
  }

  /** The ramp index never decreases as luminance grows. */
  lemma RampIndexMonotone(gray: int, gray': int, rampLength: nat)
    requires 0 <= gray <= gray' <= 255 && rampLength > 0
    ensures RampIndex(gray, rampLength) <= RampIndex(gray', rampLength)
  {
    MulLeq(gray, gray', rampLength - 1);
    DivLeq(gray * (rampLength - 1), gray' * (rampLength - 1), 255);
  }

  /** Black is drawn with the first character and white with the last. */
  lemma RampIndexEnds(rampLength: nat)
    requires rampLength > 0
    ensures RampIndex(0, rampLength) == 0
    ensures RampIndex(255, rampLength) == rampLength - 1
  {
    DivIsFloor(255 * (rampLength - 1), 255, rampLength - 1);
  }

  /** With at most 256 characters, every character of the ramp is drawn for some
      luminance: the band of index `i` is not empty. */
  lemma EveryGlyphReachable(rampLength: nat, i: nat)
    requires 0 < rampLength <= 256 && i < rampLength
    ensures exists gray :: 0 <= gray <= 255 && RampIndex(gray, rampLength) == i
  {
    if rampLength == 1 {
      assert RampIndex(0, rampLength) == 0;
    } else {
      var m := rampLength - 1;
      // the least luminance whose band starts at or after i: ceil(255 i / m)
      var gray := (255 * i + m - 1) / m;
      DivBounds(255 * i + m - 1, m);
      assert gray * m <= 255 * i + m - 1 < gray * m + m;
      MulLeq(i, m, 255);
      QuotientBelow(255 * i + m - 1, m, 256);
      assert 255 * i <= gray * m < 255 * i + 255;
      DivIsFloor(gray * m, 255, i);
      assert RampIndex(gray, rampLength) == i;
    }
  }

  /** Every kept row `y` is drawn, as line `y / |verticalScale|`. */
  lemma {:induction false} KeptRowIsDrawn(pixels: seq<seq<Pixel>>, ramp: string, verticalScale: int, y: nat)
    requires CanMap(pixels, ramp, verticalScale)
    requires y < |pixels| && Keeps(y, verticalScale)
    ensures y / Abs(verticalScale) < |PixelsToAscii(pixels, ramp, verticalScale)|
    ensures PixelsToAscii(pixels, ramp, verticalScale)[y / Abs(verticalScale)] == RowToLine(pixels[y], ramp)
  {
    var a := Abs(verticalScale);
    var k := y / a;
    KeepsAbs(y, verticalScale);
    assert k * a == y;
    var n := |pixels|;
    DivBounds(n + a - 1, a);
    assert y + a <= n + a - 1;
    DivLeq(y + a, n + a - 1, a);
    DivIsFloor(y + a, a, k + 1);
  }

  /** Every drawn line is a kept row: line `k` is row `k * |verticalScale|`. */
  lemma DrawnLineIsKeptRow(pixels: seq<seq<Pixel>>, ramp: string, verticalScale: int, k: nat)
    requires CanMap(pixels, ramp, verticalScale)
    requires k < |PixelsToAscii(pixels, ramp, verticalScale)|
    ensures verticalScale != 0 && k * Abs(verticalScale) < |pixels|
    ensures Keeps(k * Abs(verticalScale), verticalScale)
    ensures PixelsToAscii(pixels, ramp, verticalScale)[k] == RowToLine(pixels[k * Abs(verticalScale)], ramp)
  {
    var a := Abs(verticalScale);
    KeepsAbs(k * a, verticalScale);
    DivIsFloor(k * a, a, k);
  }

  /** Every line of a grid of `width`-pixel rows is `width` characters long and
      drawn from the ramp alone. */
  lemma LinesFromRamp(pixels: seq<seq<Pixel>>, ramp: string, verticalScale: int, width: nat)
    requires CanMap(pixels, ramp, verticalScale)
    requires forall y :: 0 <= y < |pixels| ==> |pixels[y]| == width
    ensures forall k :: 0 <= k < |PixelsToAscii(pixels, ramp, verticalScale)| ==>
              |PixelsToAscii(pixels, ramp, verticalScale)[k]| == width
    ensures forall k, x :: 0 <= k < |PixelsToAscii(pixels, ramp, verticalScale)| &&
                           0 <= x < |PixelsToAscii(pixels, ramp, verticalScale)[k]| ==>
              PixelsToAscii(pixels, ramp, verticalScale)[k][x] in ramp
  {
    var lines := PixelsToAscii(pixels, ramp, verticalScale);
    forall k, x | 0 <= k < |lines| && 0 <= x < |lines[k]| ensures lines[k][x] in ramp {
      var row := pixels[k * Abs(verticalScale)];
      assert lines[k][x] == Glyph(row[x], ramp);
    }
  }

  /** The default vertical scale of 2 on a ten-row grid draws five lines, from
      rows 0, 2, 4, 6 and 8. */
  lemma HalvingTenRows(pixels: seq<seq<Pixel>>, ramp: string)
    requires |pixels| == 10 && |ramp| > 0
    ensures |PixelsToAscii(pixels, ramp, 2)| == 5
    ensures forall i :: 0 <= i < 5 ==> PixelsToAscii(pixels, ramp, 2)[i] == RowToLine(pixels[2 * i], ramp)
  {
    assert Abs(2) == 2 && CeilDiv(10, 2) == 5;
  }
}
