/** The BMP decoder (`parse_bmp` of ascii_converter.py) from the byte buffer on:
    uncompressed 24- and 32-bit BI_RGB images with a BITMAPINFOHEADER layout. */
module Bmp {
  import opened Types
  import opened LittleEndian
  import opened Arith
  import opened Seqs

  /** The four header fields the decoder reads; every other header byte is ignored. */
  datatype Header = Header(dataOffset: nat, width: int, height: int, bpp: nat)

  /** A decoded image: `height` rows, top row first, of `width` pixels, left to right. */
  datatype Bitmap = Bitmap(pixels: seq<seq<Pixel>>, width: nat, height: nat)

  /** The "BM" signature. A buffer shorter than two bytes does not carry it. */
  predicate HasSignature(buf: seq<Byte>) {
    |buf| >= 2 && buf[0] == 'B' as int && buf[1] == 'M' as int
  }

  /** The pixel-data offset (unsigned, bytes 10..13), width and height (signed,
      bytes 18..21 and 22..25) and bits per pixel (unsigned, bytes 28..29). A
      buffer too short for a field yields a clipped slice, read as a smaller number. */
  function ReadHeader(buf: seq<Byte>): Header {
    Header(
      Unsigned(Slice(buf, 10, 14)),
      Signed(Slice(buf, 18, 22)),
      Signed(Slice(buf, 22, 26)),
      Unsigned(Slice(buf, 28, 30)))
  }

  /** The header fields lie in the ranges of a four-byte unsigned offset, four-byte
      signed dimensions and a two-byte depth, whatever the buffer's length; a
      buffer that ends before a field reads it as 0. */
  lemma HeaderBounds(buf: seq<Byte>)
    ensures var h := ReadHeader(buf);
            && h.dataOffset < 0x1_0000_0000 && h.bpp < 0x1_0000
            && -0x8000_0000 <= h.width < 0x8000_0000 && -0x8000_0000 <= h.height < 0x8000_0000
            && (|buf| <= 10 ==> h == Header(0, 0, 0, 0))
            && (|buf| <= 28 ==> h.bpp == 0)
  {
    FieldBounds(Slice(buf, 10, 14), 4);
    FieldBounds(Slice(buf, 18, 22), 4);
    FieldBounds(Slice(buf, 22, 26), 4);
    FieldBounds(Slice(buf, 28, 30), 2);
  }

  /** The header fields of a buffer that holds all of them, byte by byte: the
      least significant byte first, and the top bit of a signed field worth -2^31. */
  lemma HeaderLayout(buf: seq<Byte>)
    requires |buf| >= 30
    ensures ReadHeader(buf).dataOffset == buf[10] + 0x100 * (buf[11] as int) + 0x1_0000 * (buf[12] as int) + 0x100_0000 * (buf[13] as int)
    ensures ReadHeader(buf).width == buf[18] + 0x100 * (buf[19] as int) + 0x1_0000 * (buf[20] as int) + 0x100_0000 * (buf[21] as int)
                                     - (if buf[21] >= 0x80 then 0x1_0000_0000 else 0)
    ensures ReadHeader(buf).height == buf[22] + 0x100 * (buf[23] as int) + 0x1_0000 * (buf[24] as int) + 0x100_0000 * (buf[25] as int)
                                      - (if buf[25] >= 0x80 then 0x1_0000_0000 else 0)
    ensures ReadHeader(buf).bpp == buf[28] + 0x100 * (buf[29] as int)
  {
    UnsignedFour(Slice(buf, 10, 14));
    SignedFour(Slice(buf, 18, 22));
    SignedFour(Slice(buf, 22, 26));
    UnsignedTwo(Slice(buf, 28, 30));
  }

  predicate SupportedDepth(bpp: int) {
    bpp == 24 || bpp == 32
  }

  function Width(h: Header): nat {
    Abs(h.width)
  }

  function Height(h: Header): nat {
    Abs(h.height)
  }

  function BytesPerPixel(h: Header): nat {
    h.bpp / 8
  }

  /** `(n + 3) & ~3`: on a non-negative number, and-ing with `~3` clears the two
      low bits, that is, subtracts the remainder modulo 4. The result is the
      smallest multiple of 4 that holds `n` bytes. */
  function RowSize(n: nat): (size: nat)
    ensures size % 4 == 0
    ensures n <= size < n + 4
  {
    (n + 3) - (n + 3) % 4
  }

  /** The stored length of one row, padding included. */
  function Stride(h: Header): nat {
    RowSize(Width(h) * BytesPerPixel(h))
  }

  /** The storage row that holds image row `y` (row 0 is the top row): a positive
      height means the rows are stored bottom to top, otherwise top to bottom. */
  function StorageRow(h: Header, y: nat): (s: nat)
    requires y < Height(h)
    ensures s < Height(h)
  {
    if h.height > 0 then Height(h) - 1 - y else y
  }

  function RowStart(h: Header, y: nat): nat
    requires y < Height(h)
  {
    h.dataOffset + StorageRow(h, y) * Stride(h)
  }

  /** The offset of the blue byte of pixel `(x, y)`. */
  function PixelOffset(h: Header, x: nat, y: nat): nat
    requires y < Height(h)
  {
    RowStart(h, y) + x * BytesPerPixel(h)
  }

  /** Every byte the decoder reads lies inside the buffer. When this fails the
      Python code raises `IndexError` at the first read past the end. */
  predicate ReadsInBounds(buf: seq<Byte>, h: Header) {
    forall y, x :: 0 <= y < Height(h) && 0 <= x < Width(h) ==> PixelOffset(h, x, y) + 2 < |buf|
  }

  /** The three bytes at `off` are blue, green, red; any fourth byte is not read. */
  function ReadPixel(buf: seq<Byte>, off: nat): Pixel
    requires off + 2 < |buf|
  {
    Pixel(buf[off + 2], buf[off + 1], buf[off])
  }

  /** Pixels 0 .. n-1 of image row `y`, appended left to right as the inner loop does. */
  function DecodeRow(buf: seq<Byte>, h: Header, y: nat, n: nat): (row: seq<Pixel>)
    requires y < Height(h) && n <= Width(h) && ReadsInBounds(buf, h)
    ensures |row| == n
    ensures forall x :: 0 <= x < n ==> row[x] == ReadPixel(buf, PixelOffset(h, x, y))
  {
    if n == 0 then []
    else DecodeRow(buf, h, y, n - 1) + [ReadPixel(buf, PixelOffset(h, n - 1, y))]
  }

  /** Image rows 0 .. n-1, appended top to bottom as the outer loop does. */
  function DecodeRows(buf: seq<Byte>, h: Header, n: nat): (rows: seq<seq<Pixel>>)
    requires n <= Height(h) && ReadsInBounds(buf, h)
    ensures IsGrid(rows, Width(h), n)
    ensures forall y, x :: 0 <= y < n && 0 <= x < Width(h) ==>
              rows[y][x] == ReadPixel(buf, PixelOffset(h, x, y))
  {
    if n == 0 then []
    else DecodeRows(buf, h, n - 1) + [DecodeRow(buf, h, n - 1, Width(h))]
  }

  /** `bmp` is the image that header `h` lays out in `buf`: |width| by |height|
      pixels, and pixel `(x, y)` (y = 0 the top row) made of the red, green and
      blue bytes at offsets +2, +1 and +0 of its offset. */
  ghost predicate DecodedFrom(buf: seq<Byte>, h: Header, bmp: Bitmap) {
    && ReadsInBounds(buf, h)
    && bmp.width == Width(h)
    && bmp.height == Height(h)
    && IsGrid(bmp.pixels, Width(h), Height(h))
    && forall y, x :: 0 <= y < Height(h) && 0 <= x < Width(h) ==>
         bmp.pixels[y][x] == Pixel(buf[PixelOffset(h, x, y) + 2], buf[PixelOffset(h, x, y) + 1], buf[PixelOffset(h, x, y)])
  }

  /** `parse_bmp` after the file has been read: signature check, header fields,
      depth check, then the pixel rows in top-to-bottom order. */
  function ParseBmp(buf: seq<Byte>): (r: Result<Bitmap>)
    ensures r == Err(BadSignature) <==> !HasSignature(buf)
    ensures r == Err(UnsupportedBitDepth(ReadHeader(buf).bpp)) <==>
              HasSignature(buf) && !SupportedDepth(ReadHeader(buf).bpp)
    ensures r == Err(TruncatedPixelData) <==>
              HasSignature(buf) && SupportedDepth(ReadHeader(buf).bpp) && !ReadsInBounds(buf, ReadHeader(buf))
    ensures r.Ok? <==>
              HasSignature(buf) && SupportedDepth(ReadHeader(buf).bpp) && ReadsInBounds(buf, ReadHeader(buf))
    ensures r.Ok? ==> DecodedFrom(buf, ReadHeader(buf), r.value)
  {
    if !HasSignature(buf) then Err(BadSignature)
    else
      var h := ReadHeader(buf);
      if !SupportedDepth(h.bpp) then Err(UnsupportedBitDepth(h.bpp))
      else if !ReadsInBounds(buf, h) then Err(TruncatedPixelData)
      else Ok(Bitmap(DecodeRows(buf, h, Height(h)), Width(h), Height(h)))
  }

  /** A decoded image is fixed by what the decoder reads: when every pixel read
      gives the pixel of `pixels` at that position, the image is `pixels`. */
  lemma DecodedIs(buf: seq<Byte>, h: Header, bmp: Bitmap, pixels: seq<seq<Pixel>>)
    requires DecodedFrom(buf, h, bmp) && IsGrid(pixels, Width(h), Height(h))
    requires forall y, x :: 0 <= y < Height(h) && 0 <= x < Width(h) ==>
               ReadPixel(buf, PixelOffset(h, x, y)) == pixels[y][x]
    ensures bmp == Bitmap(pixels, Width(h), Height(h))
  {
    forall y | 0 <= y < Height(h) ensures bmp.pixels[y] == pixels[y] {
      forall x | 0 <= x < Width(h) ensures bmp.pixels[y][x] == pixels[y][x] {
        assert ReadPixel(buf, PixelOffset(h, x, y)) == pixels[y][x];
      }
    }
  }

  /** The reads stay in the buffer exactly when it reaches past the red byte of
      the last pixel of the storage row furthest from the data offset. */
  lemma ReadsInBoundsIff(buf: seq<Byte>, h: Header)
    ensures ReadsInBounds(buf, h) <==>
              (Width(h) == 0 || Height(h) == 0 ||
               h.dataOffset + (Height(h) - 1) * Stride(h) + (Width(h) - 1) * BytesPerPixel(h) + 2 < |buf|)
  {
    var w, ht, bpp := Width(h), Height(h), BytesPerPixel(h);
    if w > 0 && ht > 0 {
      if ReadsInBounds(buf, h) {
        var y := if h.height > 0 then 0 else ht - 1;
        assert PixelOffset(h, w - 1, y) + 2 < |buf|;
      } else {
        var y, x :| 0 <= y < ht && 0 <= x < w && PixelOffset(h, x, y) + 2 >= |buf|;
        MulLeq(StorageRow(h, y), ht - 1, Stride(h));
        MulLeq(x, w - 1, bpp);
      }
    }
  }

  /** The same header with the sign of the height flipped. */
  function Flip(h: Header): Header {
    h.(height := -h.height)
  }

  /** Orientation normalisation: decoding the same bytes with the opposite
      height sign yields the same rows in reverse order. */
  lemma FlipReversesRows(buf: seq<Byte>, h: Header)
    requires ReadsInBounds(buf, h)
    ensures ReadsInBounds(buf, Flip(h))
    ensures DecodeRows(buf, Flip(h), Height(h)) == Reverse(DecodeRows(buf, h, Height(h)))
  {
    var f, ht := Flip(h), Height(h);
    FlipInBounds(buf, h);
    var a, b := DecodeRows(buf, f, ht), Reverse(DecodeRows(buf, h, ht));
    forall y | 0 <= y < ht ensures a[y] == b[y] {
      assert |a[y]| == |b[y]|;
      forall x | 0 <= x < Width(h) ensures a[y][x] == b[y][x] {
        FlipOffset(h, x, y);
      }
    }
  }

  /** Flipping the height sign sends image row `y` to the storage row of image
      row `|height| - 1 - y`. */
  lemma FlipOffset(h: Header, x: nat, y: nat)
    requires y < Height(h)
    ensures Height(Flip(h)) == Height(h) && Width(Flip(h)) == Width(h)
    ensures PixelOffset(Flip(h), x, y) == PixelOffset(h, x, Height(h) - 1 - y)
  {
    assert Stride(Flip(h)) == Stride(h);
    assert StorageRow(Flip(h), y) == StorageRow(h, Height(h) - 1 - y);
  }

  lemma FlipInBounds(buf: seq<Byte>, h: Header)
    requires ReadsInBounds(buf, h)
    ensures ReadsInBounds(buf, Flip(h))
  {
    forall y, x | 0 <= y < Height(h) && 0 <= x < Width(h)
      ensures PixelOffset(Flip(h), x, y) + 2 < |buf|
    {
      FlipOffset(h, x, y);
    }
  }

  /** The header fields lie in the first 30 bytes. */
  lemma HeaderFromPrefix(buf: seq<Byte>, buf': seq<Byte>)
    requires |buf'| == |buf|
    requires forall i :: 0 <= i < 30 && i < |buf| ==> buf'[i] == buf[i]
    ensures ReadHeader(buf') == ReadHeader(buf)
    ensures HasSignature(buf') == HasSignature(buf)
  {
    assert Slice(buf', 10, 14) == Slice(buf, 10, 14);
    assert Slice(buf', 18, 22) == Slice(buf, 18, 22);
    assert Slice(buf', 22, 26) == Slice(buf, 22, 26);
    assert Slice(buf', 28, 30) == Slice(buf, 28, 30);
  }

  /** `buf'` holds the same blue, green and red bytes at `off` as `buf`. */
  predicate ColourBytesAgree(buf: seq<Byte>, buf': seq<Byte>, off: nat) {
    && off + 2 < |buf|
    && off + 2 < |buf'|
    && buf'[off] == buf[off]
    && buf'[off + 1] == buf[off + 1]
    && buf'[off + 2] == buf[off + 2]
  }

  /** The decoder's result depends only on the header bytes and on the three
      colour bytes of every pixel: padding, alpha and every other byte are never read. */
  lemma ParseReadsOnlyColourBytes(buf: seq<Byte>, buf': seq<Byte>)
    requires |buf'| == |buf|
    requires forall i :: 0 <= i < 30 && i < |buf| ==> buf'[i] == buf[i]
    requires forall y, x :: 0 <= y < Height(ReadHeader(buf)) && 0 <= x < Width(ReadHeader(buf)) ==>
               ColourBytesAgree(buf, buf', PixelOffset(ReadHeader(buf), x, y))
    ensures ParseBmp(buf') == ParseBmp(buf)
  {
    HeaderFromPrefix(buf, buf');
    if ParseBmp(buf).Ok? {
      DecodesAlike(buf, buf');
    } else {
      assert ReadsInBounds(buf', ReadHeader(buf)) == ReadsInBounds(buf, ReadHeader(buf));
    }
  }

  /** The successful case of `ParseReadsOnlyColourBytes`. */
  lemma DecodesAlike(buf: seq<Byte>, buf': seq<Byte>)
    requires |buf'| == |buf|
    requires forall i :: 0 <= i < 30 && i < |buf| ==> buf'[i] == buf[i]
    requires ParseBmp(buf).Ok?
    requires forall y, x :: 0 <= y < Height(ReadHeader(buf)) && 0 <= x < Width(ReadHeader(buf)) ==>
               ColourBytesAgree(buf, buf', PixelOffset(ReadHeader(buf), x, y))
    ensures ParseBmp(buf') == ParseBmp(buf)
  {
    HeaderFromPrefix(buf, buf');
    var h := ReadHeader(buf);
    assert ReadsInBounds(buf, h);
    assert ReadsInBounds(buf', h);
    var a, b := DecodeRows(buf', h, Height(h)), DecodeRows(buf, h, Height(h));
    forall y | 0 <= y < Height(h) ensures a[y] == b[y] {
      forall x | 0 <= x < Width(h) ensures a[y][x] == b[y][x] {
        assert ColourBytesAgree(buf, buf', PixelOffset(h, x, y));
      }
    }
    assert a == b;
    assert ParseBmp(buf') == Ok(Bitmap(a, Width(h), Height(h)));
  }

  /** `buf'` is `buf` with at most the byte at `pos` changed. */
  predicate DiffersAtMost(buf: seq<Byte>, buf': seq<Byte>, pos: nat) {
    |buf'| == |buf| && forall i :: 0 <= i < |buf| && i != pos ==> buf'[i] == buf[i]
  }

  /** In a 32-bit image the alpha byte of one pixel is no colour byte of any pixel. */
  lemma AlphaIsNoColourByte(h: Header, x: nat, y: nat, x': nat, y': nat)
    requires h.bpp == 32 && y < Height(h) && y' < Height(h) && x < Width(h) && x' < Width(h)
    ensures var pos, off := PixelOffset(h, x, y) + 3, PixelOffset(h, x', y');
            off != pos && off + 1 != pos && off + 2 != pos
  {
    var w := Width(h);
    assert BytesPerPixel(h) == 4 && Stride(h) == 4 * w;
    var s, s' := StorageRow(h, y), StorageRow(h, y');
    assert s * Stride(h) == 4 * (s * w) by { MulFour(s, w); }
    assert s' * Stride(h) == 4 * (s' * w) by { MulFour(s', w); }
    NotCongruent(s * w + x, s' * w + x');
  }

  /** The fourth byte of a 32-bit pixel never reaches the decoded image: a
      buffer that differs from `buf` in that byte at most decodes the same. */
  lemma AlphaNeverRead(buf: seq<Byte>, buf': seq<Byte>, x: nat, y: nat)
    requires ParseBmp(buf).Ok? && ReadHeader(buf).bpp == 32
    requires y < Height(ReadHeader(buf)) && x < Width(ReadHeader(buf))
    requires 30 <= PixelOffset(ReadHeader(buf), x, y) + 3
    requires DiffersAtMost(buf, buf', PixelOffset(ReadHeader(buf), x, y) + 3)
    ensures ParseBmp(buf') == ParseBmp(buf)
  {
    AlphaKeepsColourBytes(buf, buf', ReadHeader(buf), x, y);
    ParseReadsOnlyColourBytes(buf, buf');
  }

  /** Changing the alpha byte of pixel `(x, y)` leaves the colour bytes of
      every pixel as they were. */
  lemma AlphaKeepsColourBytes(buf: seq<Byte>, buf': seq<Byte>, h: Header, x: nat, y: nat)
    requires h.bpp == 32 && ReadsInBounds(buf, h)
    requires y < Height(h) && x < Width(h) && DiffersAtMost(buf, buf', PixelOffset(h, x, y) + 3)
    ensures forall y', x' :: 0 <= y' < Height(h) && 0 <= x' < Width(h) ==>
              ColourBytesAgree(buf, buf', PixelOffset(h, x', y'))
  {
    forall y', x' | 0 <= y' < Height(h) && 0 <= x' < Width(h)
      ensures ColourBytesAgree(buf, buf', PixelOffset(h, x', y'))
    {
      AlphaIsNoColourByte(h, x, y, x', y');
    }
  }

  /** A padding byte of a stored row is no colour byte of any pixel. */
  lemma PaddingIsNoColourByte(h: Header, y: nat, j: nat, x': nat, y': nat)
    requires SupportedDepth(h.bpp)
    requires y < Height(h) && y' < Height(h) && x' < Width(h)
    requires Width(h) * BytesPerPixel(h) <= j < Stride(h)
    ensures var pos, off := RowStart(h, y) + j, PixelOffset(h, x', y');
            off != pos && off + 1 != pos && off + 2 != pos
  {
    var w, bpp, st := Width(h), BytesPerPixel(h), Stride(h);
    var s, s' := StorageRow(h, y), StorageRow(h, y');
    var pos, off := RowStart(h, y) + j, PixelOffset(h, x', y');
    assert bpp >= 3 && w * bpp <= st;
    MulLess(x', w, bpp);
    assert off + bpp <= h.dataOffset + s' * st + w * bpp;
    if s' < s {
      MulLess(s', s, st);
      assert off + 2 < pos;
    } else if s < s' {
      MulLess(s, s', st);
      assert pos < off;
    } else {
      assert off + 2 < pos;
    }
  }

  /** The padding at the end of a stored row never reaches the decoded image: a
      buffer that differs from `buf` in one padding byte at most decodes the same. */
  lemma PaddingNeverRead(buf: seq<Byte>, buf': seq<Byte>, y: nat, j: nat)
    requires ParseBmp(buf).Ok?
    requires y < Height(ReadHeader(buf))
    requires Width(ReadHeader(buf)) * BytesPerPixel(ReadHeader(buf)) <= j < Stride(ReadHeader(buf))
    requires 30 <= RowStart(ReadHeader(buf), y) + j
    requires DiffersAtMost(buf, buf', RowStart(ReadHeader(buf), y) + j)
    ensures ParseBmp(buf') == ParseBmp(buf)
  {
    PaddingKeepsColourBytes(buf, buf', ReadHeader(buf), y, j);
    ParseReadsOnlyColourBytes(buf, buf');
  }

  /** Changing padding byte `j` of the stored row of image row `y` leaves the
      colour bytes of every pixel as they were. */
  lemma PaddingKeepsColourBytes(buf: seq<Byte>, buf': seq<Byte>, h: Header, y: nat, j: nat)
    requires SupportedDepth(h.bpp) && ReadsInBounds(buf, h)
    requires y < Height(h) && Width(h) * BytesPerPixel(h) <= j < Stride(h)
    requires DiffersAtMost(buf, buf', RowStart(h, y) + j)
    ensures forall y', x' :: 0 <= y' < Height(h) && 0 <= x' < Width(h) ==>
              ColourBytesAgree(buf, buf', PixelOffset(h, x', y'))
  {
    forall y', x' | 0 <= y' < Height(h) && 0 <= x' < Width(h)
      ensures ColourBytesAgree(buf, buf', PixelOffset(h, x', y'))
    {
      PaddingIsNoColourByte(h, y, j, x', y');
    }
  }
}
