# BMP to ASCII art converter — a verified model

A Dafny model of the conversion core of `ascii_converter.py`. The converter has three stages:

- **`parse_bmp`** decodes an uncompressed 24- or 32-bit BMP image from its bytes. It reads the `BITMAPINFOHEADER` layout, rows padded to four bytes, and either row order.
- **`resize_image`** resamples the pixel grid by nearest neighbour. It resamples to a requested width and keeps the aspect ratio.
- **`pixels_to_ascii`** keeps every `vertical_scale`-th row. It turns each pixel into a character of a ramp, dark to light, by integer luminance.

The model starts from the bytes of the file. Each exception the Python code can raise is an `Err` value of a `Result`. The only one not modelled is the `OverflowError` of float arithmetic on huge widths: the model's exact arithmetic never raises it (see "Left out").

Modules:

- **`Types`** (`types.dfy`): bytes, pixels, grids, the error type and `Result`.
- **`Arith`** (`arith.dfy`): small facts about integer multiplication and division.
- **`Seqs`** (`seqs.dfy`): sequence reversal and indexing into a concatenation.
- **`LittleEndian`** (`little_endian.dfy`):
  - Python's clipped slices;
  - `int.from_bytes` (unsigned and two's complement);
  - the matching encoders.
- **`Bmp`** (`bmp.dfy`): the decoder, and what it reads and does not read.
- **`BmpWriter`** (`bmp_writer.dfy`): an encoder for BMP files. Its only purpose is to state the round trip with the decoder.
- **`Resize`** (`resize.dfy`): the resampler, in exact rational arithmetic.
- **`Glyphs`** (`glyphs.dfy`): row decimation, luminance and the ramp index.
- **`Pipeline`** (`pipeline.dfy`): the three stages composed as `main` composes them, after option parsing and file reading.

The code's docstrings say nothing about edge cases. Where its behaviour differs from what a reader might expect of a BMP converter, the model follows the code:

- **Short header.** A buffer too short for a header field is no error: Python's slice clips, and `int.from_bytes` of a short or empty slice is a smaller number or 0.
- **Non-positive width.** A requested width of 0 or less raises nothing. `resize_image` returns no rows and a height of 0 or less, and the output has no lines.
- **No one-row minimum.** The new height has no lower bound of one row: a wide, flat image can resample to zero rows.
- **Negative vertical scale.** It is accepted. It keeps exactly the rows that its absolute value keeps.
- **Zero vertical scale.** It fails only when there is a row to test.
- **Empty ramp.** It fails only when a kept row has a pixel.
- **Truncated pixel data.** The code has no explicit check for this: a read past the end raises `IndexError`. The model returns `TruncatedPixelData` exactly when some pixel read would fall outside the buffer.

## Model

| member | source | states |
|---|---|---|
| Bmp.ParseBmp | ascii_converter.py:13-52 | The decoder fails with `BadSignature` exactly when the buffer does not start with "BM". It fails with `UnsupportedBitDepth` exactly when the signature is there and the depth is not 24 or 32. It fails with `TruncatedPixelData` exactly when the signature and depth are fine but some pixel read falls outside the buffer. It succeeds exactly when the signature and depth are fine and every pixel read stays inside the buffer. On success the image is abs(width) by abs(height). Pixel (x, y), with y = 0 the top row, is made of the bytes at offsets +2, +1 and +0 of `data_offset + s * row_size + x * bpp / 8`. Here `s = abs(h) - 1 - y` for a positive height and `s = y` otherwise. |
| Bmp.HeaderBounds | ascii_converter.py:14-20 | Whatever the buffer's length, the data offset lies in 0 .. 2^32 - 1, the width and height in -2^31 .. 2^31 - 1 and the depth in 0 .. 65535. A buffer of at most 10 bytes reads every field as 0, and one of at most 28 bytes reads the depth as 0. |
| Bmp.HeaderLayout | ascii_converter.py:17-20 | In a buffer of at least 30 bytes the fields are the little-endian numbers of bytes 10-13, 18-21, 22-25 and 28-29. The top bit of byte 21 or 25 makes the width or height negative, worth -2^31. |
| Bmp.StorageRow | ascii_converter.py:38-41 | The storage row that holds image row y is a row of the image, below abs(height). |
| Bmp.DecodeRow | ascii_converter.py:43-49 | The first n pixels of image row y, one per column; pixel x is the pixel read at the offset of (x, y). |
| Bmp.DecodeRows | ascii_converter.py:35-50 | The first n decoded rows form a grid of abs(width) pixels per row. Pixel (x, y) is the pixel read at the offset of (x, y). |
| Bmp.RowSize | ascii_converter.py:29-30 | The row stride is a multiple of 4, at least the row's pixel bytes and less than 4 bytes more than them. |
| Bmp.ReadsInBoundsIff | ascii_converter.py:35-47 | The decoder reads inside the buffer exactly when the image is empty or the red byte of the last pixel of the furthest storage row lies in the buffer. |
| Bmp.FlipReversesRows | ascii_converter.py:33-41 | Decoding the same bytes with the sign of the height flipped gives the same rows in reverse order: the sign of the height only chooses the row order. |
| Bmp.ParseReadsOnlyColourBytes | ascii_converter.py:17-49 | Two buffers of one length that agree on the first 30 bytes and on the three colour bytes of every pixel decode to the same result, whether that is an image or an error. |
| Bmp.AlphaNeverRead | ascii_converter.py:44-49 | In a 32-bit image, take a pixel whose fourth (alpha) byte lies at offset 30 or later, past the header fields. A buffer that differs from the decoded one in that byte at most decodes to the same image. |
| Bmp.PaddingNeverRead | ascii_converter.py:29-50 | Take a padding byte at the end of a stored row that lies at offset 30 or later, past the header fields. A buffer that differs from the decoded one in that byte at most decodes to the same image. |
| Bmp.DecodedIs | ascii_converter.py:35-52 | A decoded image is determined by its pixel reads: if every read gives the pixel of a grid at that position, the image is that grid. |
| BmpWriter.ParseEncodeBmp | ascii_converter.py:13-52 | Decoding a written 24- or 32-bit file of either row order returns the written grid and its dimensions. |
| BmpWriter.HeaderFields | ascii_converter.py:14-20 | The decoder reads back the signature, data offset, width, signed height and depth that the writer put into the header. |
| BmpWriter.EncodedPixelAt | ascii_converter.py:38-49 | At the offset where the decoder looks for pixel (x, y) of a written file, it finds that pixel's blue, green and red bytes. |
| LittleEndian.Slice | ascii_converter.py:14-20 | A slice past the end of the buffer is clipped to what is there: its length and every element are given. |
| LittleEndian.Unsigned | ascii_converter.py:17-20 | An unsigned field of n bytes is below 256^n, and its remainder modulo 256 is its first byte: the first byte is the least significant. |
| LittleEndian.Signed | ascii_converter.py:18-19 | A signed field lies in the two's complement range of its width. It is either the unsigned value or the unsigned value minus the field's range. |
| LittleEndian.UnsignedEncode | ascii_converter.py:17-20 | Reading an encoded unsigned value back gives the value. |
| LittleEndian.EncodeUnsigned | ascii_converter.py:17-20 | Encoding a read value gives back the bytes: distinct byte strings of one length read as distinct numbers. |
| LittleEndian.SignedEncodeSigned | ascii_converter.py:18-19 | Reading an encoded signed value back gives the value. |
| Resize.NewHeight | ascii_converter.py:59-60 | For a non-negative new width, the new height is the floor of `h * new_width / w`. For a negative new width it is not positive. |
| Resize.TruncDiv | ascii_converter.py:60 | `int()` of a quotient truncates toward zero: it rounds down for a non-negative dividend and up for a negative one. |
| Resize.ResizeImage | ascii_converter.py:59-74 | The returned width is the requested one, and a non-positive width gives no rows. Otherwise the height is the floor of `h * new_width / w`, and every row has `new_width` pixels. Output pixel (x, y) is source pixel (x * w / new_width, y * w / new_width), and both source indices are in range. |
| Resize.SourceIndex | ascii_converter.py:64-70 | The clamped source index is below the number of source samples. Times the new width, it is at most `i * w`. Unless the clamp fired, it is the largest such index. |
| Resize.ResizeRow | ascii_converter.py:68-71 | The first n output pixels of a row, one per column; pixel x is source pixel x * w / new_width, rounded down, and that index is in range. |
| Resize.ResizeRows | ascii_converter.py:63-72 | The first n output rows have `new_width` pixels each. Output pixel (x, y) is source pixel (x * w / new_width, y * w / new_width), rounded down, and both indices are in range. |
| Resize.SourceIndexUnclamped | ascii_converter.py:64-70 | For every output index the loops visit, the clamp to the last source index leaves the index unchanged. |
| Resize.ResizeIsNearestNeighbour | ascii_converter.py:63-71 | Output pixel (x, y) is the source pixel whose cell contains the point (x / scale, y / scale). |
| Resize.ResizeIdentity | ascii_converter.py:59-74 | Resampling to the image's own width returns the image unchanged, with the same height. |
| Resize.ResizeCanDropAllRows | ascii_converter.py:59-63 | A 2 × 1 image resampled to width 1 has no rows: `int(1 * 0.5)` is 0, and nothing enforces at least one row. |
| Glyphs.Luminance | ascii_converter.py:90 | The luminance of any pixel lies in 0..255. |
| Glyphs.LuminanceMonotone | ascii_converter.py:90 | Brighter channels never give a lower luminance. |
| Glyphs.LuminanceOfGrey | ascii_converter.py:89-90 | A grey pixel's luminance is its channel value, because the weights sum to 100. |
| Glyphs.RampIndex | ascii_converter.py:93 | The ramp index of a luminance in 0..255 is a valid position of a non-empty ramp. |
| Glyphs.RampIndexMonotone | ascii_converter.py:92-93 | The ramp index never decreases as luminance grows. |
| Glyphs.RampIndexEnds | ascii_converter.py:92-93 | Luminance 0 gives the first character and luminance 255 gives the last. |
| Glyphs.EveryGlyphReachable | ascii_converter.py:92-94 | For a ramp of at most 256 characters, every character is chosen by some luminance. |
| Glyphs.RowToLine | ascii_converter.py:86-94 | A line has one character per pixel of its row, and character x is the glyph of pixel x. |
| Glyphs.KeepsAbs | ascii_converter.py:83-84 | A row is kept exactly when its index is a multiple of the absolute vertical scale, for negative scales too. |
| Glyphs.CanMap | ascii_converter.py:81-94 | With at least one row, a zero vertical scale fails. So does an empty ramp when row 0, which is always kept, has a pixel. A non-empty ramp with a usable vertical scale never fails. |
| Glyphs.MapRows | ascii_converter.py:80-95 | The lines of the first n rows number `ceil(n / abs(vertical_scale))`, and line k is the line of row `k * abs(vertical_scale)`. |
| Glyphs.PixelsToAscii | ascii_converter.py:76-97 | No rows give no lines. Otherwise there are `ceil(rows / abs(vertical_scale))` lines, and line k is the line of row `k * abs(vertical_scale)`, one glyph per pixel. |
| Glyphs.KeptRowIsDrawn | ascii_converter.py:81-95 | Every kept row y is drawn, as line `y / abs(vertical_scale)`. |
| Glyphs.DrawnLineIsKeptRow | ascii_converter.py:81-95 | Every drawn line comes from a kept row, in order. |
| Glyphs.LinesFromRamp | ascii_converter.py:86-95 | Lines of a grid of equal-width rows have that width, and every character comes from the ramp. |
| Glyphs.HalvingTenRows | ascii_converter.py:76-97 | With the default vertical scale of 2, ten rows give five lines, from rows 0, 2, 4, 6 and 8. |
| Pipeline.Convert | ascii_converter.py:114-121 | Every decoding error passes through unchanged, and the result is `BadSignature` exactly when the buffer lacks "BM". After a successful decode, the result is `ZeroDivision` exactly when the image width is 0, or when there are output rows and the vertical scale is 0. It is `RampIndexOutOfRange` exactly when there are output rows, the vertical scale is not 0 and the ramp is empty. The result is `Ok` exactly when the image decodes with a positive width and, in addition, the requested width is 0 or less, or the new height is 0 or less, or the vertical scale is not 0 and the ramp is not empty. |
| Pipeline.ConvertOutput | ascii_converter.py:114-121 | A successful conversion has no lines when the new height is 0 or less. Otherwise it has `ceil(new_height / abs(vertical_scale))` lines. Every line is exactly `width` characters long and uses only ramp characters. |
| Pipeline.DefaultConfigFailsOnlyOnInput | ascii_converter.py:103-121 | With the default width, ramp and vertical scale, a conversion fails exactly when decoding fails or the image has zero width. |
| Pipeline.NonPositiveWidthDrawsNothing | ascii_converter.py:59-63 | A requested width of 0 or less succeeds with no lines. |
| Pipeline.ConvertWrittenImage | ascii_converter.py:114-121 | A written image converted at its own width, with vertical scale 1, draws every row of the image, top row first. |
| Pipeline.TwoByTwoExample | ascii_converter.py:114-121 | A 2 x 2 bottom-up 24-bit file with a black top row and a white bottom row, drawn with the ramp "@ ", gives the lines "@@" and "  ". |

## Left out

- Reading the input file and writing the output file (ascii_converter.py:10-11, 128-132). The model starts from the file's bytes and ends with the lines.
- Option parsing, console messages, the catch-all exception handler and `sys.exit` in `main` (ascii_converter.py:99-108, 116, 119, 124-125, 134-136). The options that reach the core are the `Config` value of `Pipeline`.
- The `--reverse` option (ascii_converter.py:111-112). It reverses the ramp before conversion, and `Config.ramp` is the ramp after that step.
- The text of exception messages. Each exception is an `Error` constructor.
- Resize.ResizeImage: it does not model IEEE-754 floats. The source computes `scale = new_width / w` in floating point, and then `int(h * scale)` and `int(i / scale)`. The model uses the exact rational values, so the new height is the floor of `h * new_width / w` and the source index is the floor of `i * w / new_width`. A float product or quotient that rounds to just below an integer makes the source's value one less than the model's. This affects the number of output rows as well as the source indices. For w = h = 49 and new_width = 1, `49 * (1 / 49)` is 0.9999999999999999 in double precision, so the source draws no rows where the model draws one. The clamps at ascii_converter.py:66 and 70 only keep indices in range. They do not absorb this difference, and the model claims no bit-equality with Python floats.
- Resize.ResizeImage: it does not raise the `OverflowError` of float arithmetic. For a width beyond the double range, such as a 309-digit `--width` on a one-pixel-wide image, `new_width / original_w` (ascii_converter.py:59) overflows. A `scale` so large that `original_h * scale` is infinite makes `int(...)` (ascii_converter.py:60) overflow too. The model computes with unbounded exact integers and returns a result for these inputs.
- Resize.ResizeImage: it requires `w > 0`. With `w == 0` the source raises `ZeroDivisionError` in `resize_image`, and `Pipeline.Convert` returns `ZeroDivision` for that case before resampling.
- Bmp.ParseBmp: the `IndexError` of a read past the end of the buffer (ascii_converter.py:45-47) is the explicit `TruncatedPixelData` result. The source has no such check of its own; the exception comes from the first out-of-range index.
- Header fields other than the data offset, width, height and bit depth (compression, header size, planes, palette). The decoder does not read them, so the model does not either.
