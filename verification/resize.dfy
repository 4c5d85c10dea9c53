/** The nearest-neighbour resampler (`resize_image` of ascii_converter.py). The
    source computes with floats (`scale = new_width / original_w`); this model
    uses the exact rational values, so every quotient is an integer division. */
module Resize {
  import opened Types
  import opened Arith

  /** Python's `int()` applied to the real quotient `a / d`, `d > 0`: truncation
      toward zero. */
  function TruncDiv(a: int, d: int): (q: int)
    requires d > 0
    ensures a >= 0 ==> q * d <= a < (q + 1) * d
    ensures a < 0 ==> (q - 1) * d < a <= q * d
    ensures a >= 0 ==> q >= 0
    ensures a <= 0 ==> q <= 0
  {
    if a >= 0 then a / d else -((-a) / d)
  }

  /** `int(original_h * scale)`: the number of output rows. It is negative
      when the requested width is, and 0 when the image is scaled below one row. */
  function NewHeight(h: nat, w: nat, newWidth: int): (newHeight: int)
    requires w > 0
    ensures newWidth >= 0 ==> newHeight >= 0 && newHeight * w <= h * newWidth < (newHeight + 1) * w
    ensures newWidth <= 0 ==> newHeight <= 0
  {
    var scaled := h * newWidth;
    ProductSign(h, newWidth);
    TruncDiv(scaled, w)
  }

  /** `min(int(i / scale), limit - 1)`: the source index of output index `i`
      along an axis of `limit` source samples. */
  function SourceIndex(i: nat, w: nat, newWidth: int, limit: int): (s: int)
    requires newWidth > 0
    ensures s < limit
    ensures s * newWidth <= i * w
    ensures s < limit - 1 ==> i * w < (s + 1) * newWidth
  {
    var unclamped := (i * w) / newWidth;
    DivBounds(i * w, newWidth);
    if unclamped < limit - 1 then unclamped
    else
      MulLeq(limit - 1, unclamped, newWidth);
      limit - 1
  }

  /** In exact arithmetic the clamp never fires: an output index below
      `limit * newWidth / w` maps to a source index below `limit`. */
  lemma SourceIndexUnclamped(i: nat, w: nat, newWidth: int, limit: int)
    requires w > 0 && newWidth > 0 && i * w < limit * newWidth
    ensures 0 <= (i * w) / newWidth < limit
    ensures SourceIndex(i, w, newWidth, limit) == (i * w) / newWidth
  {
    QuotientBelow(i * w, newWidth, limit);
  }

  /** Output pixels 0 .. n-1 of one row, appended left to right as the inner loop does. */
  function ResizeRow(row: seq<Pixel>, w: nat, newWidth: int, n: nat): (out: seq<Pixel>)
    requires w > 0 && |row| == w && n <= newWidth
    ensures |out| == n
    ensures forall x :: 0 <= x < n ==> (x * w) / newWidth < w && out[x] == row[(x * w) / newWidth]
  {
    if n == 0 then []
    else
      var prefix := ResizeRow(row, w, newWidth, n - 1);
      SampleInRow(n - 1, w, newWidth);
      var out := prefix + [row[SourceIndex(n - 1, w, newWidth, w)]];
      assert forall x :: 0 <= x < n - 1 ==> out[x] == prefix[x];
      out
  }

  /** Every output column below `newWidth` samples a column of the source row,
      and the clamp leaves it alone. */
  lemma SampleInRow(x: nat, w: nat, newWidth: int)
    requires w > 0 && x < newWidth
    ensures 0 <= (x * w) / newWidth < w
    ensures SourceIndex(x, w, newWidth, w) == (x * w) / newWidth
  {
    MulLess(x, newWidth, w);
    SourceIndexUnclamped(x, w, newWidth, w);
  }

  /** `rows` has `n` rows of `newWidth` pixels, and output pixel `(x, y)` is source
      pixel `(x * w / newWidth, y * w / newWidth)`, rounded down: the point
      `(x / scale, y / scale)` with `scale = newWidth / w`. Both indices are in range,
      so neither clamp of the source ever changes an index. */
  ghost predicate NearestSampled(rows: seq<seq<Pixel>>, pixels: seq<seq<Pixel>>, w: nat, h: nat, newWidth: nat, n: nat)
    requires newWidth > 0 && IsGrid(pixels, w, h)
  {
    && IsGrid(rows, newWidth, n)
    && forall y, x :: 0 <= y < n && 0 <= x < newWidth ==>
         && (y * w) / newWidth < h
         && (x * w) / newWidth < w
         && rows[y][x] == pixels[(y * w) / newWidth][(x * w) / newWidth]
  }

  /** Output rows 0 .. n-1, appended top to bottom as the outer loop does. */
  function ResizeRows(pixels: seq<seq<Pixel>>, w: nat, h: nat, newWidth: nat, n: nat): (rows: seq<seq<Pixel>>)
    requires w > 0 && newWidth > 0 && IsGrid(pixels, w, h)
    requires n <= NewHeight(h, w, newWidth)
    ensures NearestSampled(rows, pixels, w, h, newWidth, n)
  {
    if n == 0 then []
    else
      var y := n - 1;
      assert y * w < h * newWidth by {
        DivBounds(h * newWidth, w);
        MulLeq(y + 1, NewHeight(h, w, newWidth), w);
      }
      SourceIndexUnclamped(y, w, newWidth, h);
      ResizeRows(pixels, w, h, newWidth, n - 1)
      + [ResizeRow(pixels[SourceIndex(y, w, newWidth, h)], w, newWidth, newWidth)]
  }

  /** A resampled grid with the width and height `resize_image` returns. */
  datatype Resized = Resized(pixels: seq<seq<Pixel>>, width: int, height: int)

  /** `resize_image(pixels, w, h, new_width)`. The image width must be positive:
      with `w == 0` the source divides by zero. */
  function ResizeImage(pixels: seq<seq<Pixel>>, w: nat, h: nat, newWidth: int): (r: Resized)
    requires w > 0 && IsGrid(pixels, w, h)
    ensures r.width == newWidth
    ensures newWidth <= 0 ==> r.height <= 0 && r.pixels == []
    ensures newWidth > 0 ==>
              && 0 <= r.height
              && r.height * w <= h * newWidth < (r.height + 1) * w
              && NearestSampled(r.pixels, pixels, w, h, newWidth, r.height)
  {
    var newHeight := NewHeight(h, w, newWidth);
    if newWidth <= 0 then
      // range(new_height) is empty
      Resized([], newWidth, newHeight)
    else
      Resized(ResizeRows(pixels, w, h, newWidth, newHeight), newWidth, newHeight)
  }

  /** Nearest-neighbour sampling: output pixel `(x, y)` is the source pixel whose
      cell contains the point `(x / scale, y / scale)`, `scale = newWidth / w`. */
  lemma ResizeIsNearestNeighbour(pixels: seq<seq<Pixel>>, w: nat, h: nat, newWidth: int, x: nat, y: nat, sx: nat, sy: nat)
    requires w > 0 && IsGrid(pixels, w, h) && newWidth > 0
    requires y < ResizeImage(pixels, w, h, newWidth).height && x < newWidth
    requires sx * newWidth <= x * w < (sx + 1) * newWidth
    requires sy * newWidth <= y * w < (sy + 1) * newWidth
    ensures sy < h && sx < w
    ensures ResizeImage(pixels, w, h, newWidth).pixels[y][x] == pixels[sy][sx]
  {
    DivIsFloor(x * w, newWidth, sx);
    DivIsFloor(y * w, newWidth, sy);
  }

  /** Resampling to the image's own width changes nothing. */
  lemma ResizeIdentity(pixels: seq<seq<Pixel>>, w: nat, h: nat)
    requires w > 0 && IsGrid(pixels, w, h)
    ensures ResizeImage(pixels, w, h, w) == Resized(pixels, w, h)
  {
    var r := ResizeImage(pixels, w, h, w);
    DivIsFloor(h * w, w, h);
    assert r.height == h;
    forall y | 0 <= y < h ensures r.pixels[y] == pixels[y] {
      forall x | 0 <= x < w ensures r.pixels[y][x] == pixels[y][x] {
        assert (x + 1) * w == x * w + w && (y + 1) * w == y * w + w;
        ResizeIsNearestNeighbour(pixels, w, h, w, x, y, x, y);
      }
    }
  }

  /** A 2 x 1 image resampled to width 1 has no rows: `int(1 * 0.5)` is 0, and
      the source sets no lower bound of one row. */
  lemma ResizeCanDropAllRows(pixels: seq<seq<Pixel>>)
    requires IsGrid(pixels, 2, 1)
    ensures ResizeImage(pixels, 2, 1, 1) == Resized([], 1, 0)
  {
  }
}
