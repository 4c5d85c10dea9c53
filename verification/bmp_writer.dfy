/** A writer for the BMP layout the decoder reads (14-byte file header, 40-byte
    BITMAPINFOHEADER, uncompressed 24- or 32-bit rows padded to 4 bytes), and the
    round trip: decoding what it writes gives back the image, whichever row
    order the writer chose. */
module BmpWriter {
  import opened Types
  import opened LittleEndian
  import opened Arith
  import opened Seqs
  import opened Bmp

  /** Bytes before the pixel data: the file header and the info header. */
  const HeaderLength: nat := 54

  function Zeros(n: nat): (s: seq<Byte>)
    ensures |s| == n
  {
    seq(n, _ => 0)
  }

  /** The stored bytes of one pixel: blue, green, red, then, at 32 bits, an
      opaque alpha byte. */
  function EncodePixel(p: Pixel, bytesPerPixel: nat): (s: seq<Byte>)
    requires bytesPerPixel == 3 || bytesPerPixel == 4
    ensures |s| == bytesPerPixel
    ensures s[0] == p.b && s[1] == p.g && s[2] == p.r
  {
    [p.b, p.g, p.r] + (if bytesPerPixel == 4 then [255] else [])
  }

  /** The pixels of one row, left to right, without padding. */
  function EncodePixels(row: seq<Pixel>, bytesPerPixel: nat): (s: seq<Byte>)
    requires bytesPerPixel == 3 || bytesPerPixel == 4
    ensures |s| == |row| * bytesPerPixel
  {
    if |row| == 0 then []
    else
      var s := EncodePixels(row[..|row| - 1], bytesPerPixel) + EncodePixel(row[|row| - 1], bytesPerPixel);
      assert |s| == (|row| - 1) * bytesPerPixel + bytesPerPixel;
      s
  }

  /** One stored row: its pixels, then zero padding up to `stride` bytes. */
  function EncodeRow(row: seq<Pixel>, bytesPerPixel: nat, stride: nat): (s: seq<Byte>)
    requires bytesPerPixel == 3 || bytesPerPixel == 4
    requires |row| * bytesPerPixel <= stride
    ensures |s| == stride
  {
    EncodePixels(row, bytesPerPixel) + Zeros(stride - |row| * bytesPerPixel)
  }

  /** The image row held by storage row `s`: top-down files store the top row
      first, bottom-up files store it last. */
  function ImageRow(h: nat, topDown: bool, s: nat): nat
    requires s < h
  {
    if topDown then s else h - 1 - s
  }

  /** Storage rows 0 .. n-1 of the pixel data. */
  function EncodeData(pixels: seq<seq<Pixel>>, w: nat, bytesPerPixel: nat, stride: nat, topDown: bool, n: nat): (s: seq<Byte>)
    requires IsGrid(pixels, w, |pixels|) && n <= |pixels|
    requires bytesPerPixel == 3 || bytesPerPixel == 4
    requires w * bytesPerPixel <= stride
    ensures |s| == n * stride
  {
    if n == 0 then []
    else
      var s := EncodeData(pixels, w, bytesPerPixel, stride, topDown, n - 1)
               + EncodeRow(pixels[ImageRow(|pixels|, topDown, n - 1)], bytesPerPixel, stride);
      assert |s| == (n - 1) * stride + stride;
      s
  }

  /** Dimensions and depth the writer can represent: width and height fit the
      signed 32-bit header fields and the file size fits its unsigned 32-bit field. */
  predicate Writable(w: nat, h: nat, bpp: nat) {
    && SupportedDepth(bpp)
    && w < Half(4)
    && h < Half(4)
    && HeaderLength + h * RowSize(w * (bpp / 8)) < Pow256(4)
  }

  /** The header's height field: negative for top-down row order. */
  function HeightField(h: nat, topDown: bool): int {
    if topDown then -(h as int) else h
  }

  /** Byte `i` of the 54-byte header. */
  function HeaderByte(w: nat, h: nat, bpp: nat, topDown: bool, i: nat): Byte
    requires Writable(w, h, bpp) && i < HeaderLength
  {
    // BITMAPFILEHEADER: signature, file size, two reserved words, data offset
    if i < 2 then [66, 77][i]
    else if i < 6 then Encode(HeaderLength + h * RowSize(w * (bpp / 8)), 4)[i - 2]
    else if i < 10 then 0
    else if i < 14 then Encode(HeaderLength, 4)[i - 10]
    // BITMAPINFOHEADER: header size, width, height, planes, bits per pixel
    else if i < 18 then Encode(40, 4)[i - 14]
    else if i < 22 then EncodeSigned(w, 4)[i - 18]
    else if i < 26 then EncodeSigned(HeightField(h, topDown), 4)[i - 22]
    else if i < 28 then Encode(1, 2)[i - 26]
    else if i < 30 then Encode(bpp, 2)[i - 28]
    // compression (BI_RGB), image size, resolutions, palette counts
    else 0
  }

  function HeaderBytes(w: nat, h: nat, bpp: nat, topDown: bool): (s: seq<Byte>)
    requires Writable(w, h, bpp)
    ensures |s| == HeaderLength
  {
    seq(HeaderLength, i requires 0 <= i < HeaderLength => HeaderByte(w, h, bpp, topDown, i))
  }

  /** A complete BMP file holding `pixels`, rows stored top-down or bottom-up. */
  function EncodeBmp(pixels: seq<seq<Pixel>>, w: nat, h: nat, bpp: nat, topDown: bool): (buf: seq<Byte>)
    requires IsGrid(pixels, w, h) && Writable(w, h, bpp)
    ensures |buf| == HeaderLength + h * RowSize(w * (bpp / 8))
  {
    HeaderBytes(w, h, bpp, topDown)
    + EncodeData(pixels, w, bpp / 8, RowSize(w * (bpp / 8)), topDown, h)
  }

  lemma {:induction false} EncodePixelsAt(row: seq<Pixel>, bytesPerPixel: nat, x: nat)
    requires bytesPerPixel == 3 || bytesPerPixel == 4
    requires x < |row|
    ensures x * bytesPerPixel + 2 < |EncodePixels(row, bytesPerPixel)|
    ensures ReadPixel(EncodePixels(row, bytesPerPixel), x * bytesPerPixel) == row[x]
  {
    var n := |row|;
    var prefix := row[..n - 1];
    var front := EncodePixels(prefix, bytesPerPixel);
    if x < n - 1 {
      EncodePixelsAt(prefix, bytesPerPixel, x);
      MulLess(x, n - 1, bytesPerPixel);
    } else {
      assert |front| == x * bytesPerPixel;
    }
  }

  lemma {:induction false} EncodeDataAt(pixels: seq<seq<Pixel>>, w: nat, bytesPerPixel: nat, stride: nat, topDown: bool, n: nat, s: nat, j: nat)
    requires IsGrid(pixels, w, |pixels|) && n <= |pixels|
    requires bytesPerPixel == 3 || bytesPerPixel == 4
    requires w * bytesPerPixel <= stride
    requires s < n && j < stride
    ensures s * stride + j < n * stride
    ensures EncodeData(pixels, w, bytesPerPixel, stride, topDown, n)[s * stride + j]
         == EncodeRow(pixels[ImageRow(|pixels|, topDown, s)], bytesPerPixel, stride)[j]
  {
    var front := EncodeData(pixels, w, bytesPerPixel, stride, topDown, n - 1);
    var last := EncodeRow(pixels[ImageRow(|pixels|, topDown, n - 1)], bytesPerPixel, stride);
    assert EncodeData(pixels, w, bytesPerPixel, stride, topDown, n) == front + last;
    BlockIndex(s, n, stride, j);
    if s < n - 1 {
      EncodeDataAt(pixels, w, bytesPerPixel, stride, topDown, n - 1, s, j);
      ConcatLeft(front, last, s * stride + j);
    } else {
      ConcatRight(front, last, j);
    }
  }

  /** A field laid out byte by byte at `lo` reads back as a slice. */
  lemma FieldAt(buf: seq<Byte>, lo: nat, field: seq<Byte>)
    requires lo + |field| <= |buf|
    requires forall k :: 0 <= k < |field| ==> buf[lo + k] == field[k]
    ensures Slice(buf, lo, lo + |field|) == field
  {
  }

  /** The header fields the decoder reads hold the encoded offset, width,
      height and depth. */
  lemma HeaderSlices(w: nat, h: nat, bpp: nat, topDown: bool, data: seq<Byte>)
    requires Writable(w, h, bpp)
    ensures var buf := HeaderBytes(w, h, bpp, topDown) + data;
            && HasSignature(buf)
            && Slice(buf, 10, 14) == Encode(HeaderLength, 4)
            && Slice(buf, 18, 22) == EncodeSigned(w, 4)
            && Slice(buf, 22, 26) == EncodeSigned(HeightField(h, topDown), 4)
            && Slice(buf, 28, 30) == Encode(bpp, 2)
  {
    var buf := HeaderBytes(w, h, bpp, topDown) + data;
    assert forall i :: 0 <= i < HeaderLength ==> buf[i] == HeaderByte(w, h, bpp, topDown, i);
    FieldAt(buf, 10, Encode(HeaderLength, 4));
    FieldAt(buf, 18, EncodeSigned(w, 4));
    FieldAt(buf, 22, EncodeSigned(HeightField(h, topDown), 4));
    FieldAt(buf, 28, Encode(bpp, 2));
  }

  lemma HeaderFields(w: nat, h: nat, bpp: nat, topDown: bool, data: seq<Byte>)
    requires Writable(w, h, bpp)
    ensures HasSignature(HeaderBytes(w, h, bpp, topDown) + data)
    ensures ReadHeader(HeaderBytes(w, h, bpp, topDown) + data) == Header(HeaderLength, w, HeightField(h, topDown), bpp)
  {
    var buf := HeaderBytes(w, h, bpp, topDown) + data;
    var height := HeightField(h, topDown);
    HeaderSlices(w, h, bpp, topDown, data);
    UnsignedEncode(HeaderLength, 4);
    SignedEncodeSigned(w, 4);
    SignedEncodeSigned(height, 4);
    UnsignedEncode(bpp, 2);
    assert Unsigned(Slice(buf, 10, 14)) == HeaderLength;
    assert Signed(Slice(buf, 18, 22)) == w;
    assert Signed(Slice(buf, 22, 26)) == height;
    assert Unsigned(Slice(buf, 28, 30)) == bpp;
  }

  /** The offset of byte `j` of storage row `s` in a written file. */
  function RowByte(w: nat, bpp: nat, s: nat, j: nat): nat {
    MulLeq(0, s, RowSize(w * (bpp / 8)));
    HeaderLength + s * RowSize(w * (bpp / 8)) + j
  }

  /** The offset of pixel `x` of storage row `s` in a written file. */
  function DataOffset(w: nat, bpp: nat, s: nat, x: nat): nat {
    MulLeq(0, x, bpp / 8);
    RowByte(w, bpp, s, x * (bpp / 8))
  }

  /** Byte `j` of storage row `s` of a written file, within the pixel bytes of the row. */
  lemma StoredByte(pixels: seq<seq<Pixel>>, w: nat, h: nat, bpp: nat, topDown: bool, s: nat, j: nat)
    requires IsGrid(pixels, w, h) && Writable(w, h, bpp)
    requires s < h && j < w * (bpp / 8)
    ensures RowByte(w, bpp, s, j) < |EncodeBmp(pixels, w, h, bpp, topDown)|
    ensures EncodeBmp(pixels, w, h, bpp, topDown)[RowByte(w, bpp, s, j)]
         == EncodePixels(pixels[ImageRow(h, topDown, s)], bpp / 8)[j]
  {
    var bytesPerPixel, stride := bpp / 8, RowSize(w * (bpp / 8));
    var data := EncodeData(pixels, w, bytesPerPixel, stride, topDown, h);
    var buf := EncodeBmp(pixels, w, h, bpp, topDown);
    assert buf == HeaderBytes(w, h, bpp, topDown) + data;
    EncodeDataAt(pixels, w, bytesPerPixel, stride, topDown, h, s, j);
    MulLeq(0, s, stride);
    var t: nat := s * stride + j;
    ConcatRight(HeaderBytes(w, h, bpp, topDown), data, t);
  }

  /** The blue, green and red bytes of pixel `x` of storage row `s` of a written
      file are those of the image row that storage row holds. */
  lemma StoredPixel(pixels: seq<seq<Pixel>>, w: nat, h: nat, bpp: nat, topDown: bool, s: nat, x: nat)
    requires IsGrid(pixels, w, h) && Writable(w, h, bpp)
    requires s < h && x < w
    ensures DataOffset(w, bpp, s, x) + 2 < |EncodeBmp(pixels, w, h, bpp, topDown)|
    ensures ReadPixel(EncodeBmp(pixels, w, h, bpp, topDown), DataOffset(w, bpp, s, x)) == pixels[ImageRow(h, topDown, s)][x]
  {
    var j := x * (bpp / 8);
    MulLess(x, w, bpp / 8);
    StoredByte(pixels, w, h, bpp, topDown, s, j);
    StoredByte(pixels, w, h, bpp, topDown, s, j + 1);
    StoredByte(pixels, w, h, bpp, topDown, s, j + 2);
    EncodePixelsAt(pixels[ImageRow(h, topDown, s)], bpp / 8, x);
  }

  /** The decoder's offset of pixel `(x, y)` in a written file: storage row
      `s` holds image row `y`, and the pixel starts `x * bytesPerPixel` into it. */
  lemma EncodedOffset(w: nat, h: nat, bpp: nat, topDown: bool, x: nat, y: nat) returns (s: nat, j: nat)
    requires Writable(w, h, bpp) && x < w && y < h
    ensures s < h && ImageRow(h, topDown, s) == y
    ensures j + 2 < w * (bpp / 8) && j == x * (bpp / 8)
    ensures PixelOffset(Header(HeaderLength, w, HeightField(h, topDown), bpp), x, y) == DataOffset(w, bpp, s, x)
  {
    var hdr := Header(HeaderLength, w, HeightField(h, topDown), bpp);
    assert Stride(hdr) == RowSize(w * (bpp / 8)) && BytesPerPixel(hdr) == bpp / 8;
    s := StorageRow(hdr, y);
    MulLess(x, w, bpp / 8);
    j := x * (bpp / 8);
  }

  /** Where the decoder looks for pixel `(x, y)` of a written file, it finds it. */
  lemma EncodedPixelAt(pixels: seq<seq<Pixel>>, w: nat, h: nat, bpp: nat, topDown: bool, x: nat, y: nat)
    requires IsGrid(pixels, w, h) && Writable(w, h, bpp)
    requires x < w && y < h
    ensures var hdr := Header(HeaderLength, w, HeightField(h, topDown), bpp);
            && PixelOffset(hdr, x, y) + 2 < |EncodeBmp(pixels, w, h, bpp, topDown)|
            && ReadPixel(EncodeBmp(pixels, w, h, bpp, topDown), PixelOffset(hdr, x, y)) == pixels[y][x]
  {
    var s, j := EncodedOffset(w, h, bpp, topDown, x, y);
    StoredPixel(pixels, w, h, bpp, topDown, s, x);
  }

  /** Every pixel read of the decoder on a written file stays in the file and
      gives back the written pixel. */
  lemma EncodedPixels(pixels: seq<seq<Pixel>>, w: nat, h: nat, bpp: nat, topDown: bool)
    requires IsGrid(pixels, w, h) && Writable(w, h, bpp)
    ensures var hdr, buf := Header(HeaderLength, w, HeightField(h, topDown), bpp), EncodeBmp(pixels, w, h, bpp, topDown);
            && Width(hdr) == w && Height(hdr) == h
            && ReadsInBounds(buf, hdr)
            && forall y, x :: 0 <= y < h && 0 <= x < w ==> ReadPixel(buf, PixelOffset(hdr, x, y)) == pixels[y][x]
  {
    var hdr, buf := Header(HeaderLength, w, HeightField(h, topDown), bpp), EncodeBmp(pixels, w, h, bpp, topDown);
    forall y, x | 0 <= y < h && 0 <= x < w
      ensures PixelOffset(hdr, x, y) + 2 < |buf|
      ensures ReadPixel(buf, PixelOffset(hdr, x, y)) == pixels[y][x]
    {
      EncodedPixelAt(pixels, w, h, bpp, topDown, x, y);
    }
  }

  /** Round trip: decoding a written file gives back its dimensions and every
      pixel, with row 0 the top row for both row orders. */
  lemma ParseEncodeBmp(pixels: seq<seq<Pixel>>, w: nat, h: nat, bpp: nat, topDown: bool)
    requires IsGrid(pixels, w, h) && Writable(w, h, bpp)
    ensures ParseBmp(EncodeBmp(pixels, w, h, bpp, topDown)) == Ok(Bitmap(pixels, w, h))
  {
    var buf := EncodeBmp(pixels, w, h, bpp, topDown);
    var data := EncodeData(pixels, w, bpp / 8, RowSize(w * (bpp / 8)), topDown, h);
    assert buf == HeaderBytes(w, h, bpp, topDown) + data;
    HeaderFields(w, h, bpp, topDown, data);
    var hdr := Header(HeaderLength, w, HeightField(h, topDown), bpp);
    assert ReadHeader(buf) == hdr;
    EncodedPixels(pixels, w, h, bpp, topDown);
    DecodedIs(buf, hdr, ParseBmp(buf).value, pixels);
  }
}
