/** Value types shared by the three stages of the converter: bytes, pixels,
    pixel grids and the errors a conversion can end in. */
module Types {

  /** One element of the input buffer (a Python `bytearray` element). */
  type Byte = x: int | 0 <= x < 256

  /** A decoded pixel in canonical (red, green, blue) order. The alpha byte of a
      32-bit pixel is never part of it. */
  datatype Pixel = Pixel(r: Byte, g: Byte, b: Byte)

  /** The failures of a conversion. Each one corresponds to an exception the
      Python code raises:
      - BadSignature: the `ValueError` for a buffer not starting with "BM";
      - UnsupportedBitDepth: the `ValueError` for a depth other than 24 or 32;
      - TruncatedPixelData: the `IndexError` of a pixel read past the end of the buffer;
      - ZeroDivision: the `ZeroDivisionError` of a zero image width (resize) or a
        zero vertical scale (glyph mapping);
      - RampIndexOutOfRange: the `IndexError` of indexing an empty character ramp. */
  datatype Error =
    | BadSignature
    | UnsupportedBitDepth(bpp: int)
    | TruncatedPixelData
    | ZeroDivision
    | RampIndexOutOfRange

  datatype Result<T> = Ok(value: T) | Err(error: Error)

  /** `rows` holds exactly `h` rows of exactly `w` pixels each. */
  predicate IsGrid(rows: seq<seq<Pixel>>, w: nat, h: nat) {
    |rows| == h && forall y :: 0 <= y < h ==> |rows[y]| == w
  }

  /** Python's `abs` on integers. */
  function Abs(x: int): nat {
    if x < 0 then -x else x
  }
}
