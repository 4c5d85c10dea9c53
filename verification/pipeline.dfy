/** The conversion `main` performs once the options are parsed and the file is
    read: decode, resample to the requested width, draw with the ramp. An
    exception in any stage ends the conversion with that error. */
module Pipeline {
  import opened Types
  import opened Arith
  import opened Bmp
  import opened BmpWriter
  import opened Resize
  import opened Glyphs
  import opened LittleEndian

  /** The options that reach the core: `--width`, `--set` (after the optional
      reversal) and `--vertical-scale`. */
  datatype Config = Config(width: int, ramp: string, verticalScale: int)

  /** The option defaults. */
  const DefaultConfig: Config := Config(100, "@%#*+=-:. ", 2)

  /** `pixels_to_ascii(resize_image(*parse_bmp(buf), width), ramp, vertical_scale)`,
      with each exception the three calls can raise as an error. */
  function Convert(buf: seq<Byte>, cfg: Config): (r: Result<seq<string>>)
    ensures ParseBmp(buf).Err? ==> r == Err(ParseBmp(buf).error)
    ensures r == Err(BadSignature) <==> !HasSignature(buf)
    ensures r.Ok? <==>
              && ParseBmp(buf).Ok? && ParseBmp(buf).value.width > 0
              && (|| cfg.width <= 0
                  || NewHeight(ParseBmp(buf).value.height, ParseBmp(buf).value.width, cfg.width) <= 0
                  || (cfg.verticalScale != 0 && |cfg.ramp| > 0))
    ensures ParseBmp(buf).Ok? ==>
              var bmp := ParseBmp(buf).value;
              (r == Err(ZeroDivision) <==>
                 || bmp.width == 0
                 || (cfg.width > 0 && NewHeight(bmp.height, bmp.width, cfg.width) > 0 && cfg.verticalScale == 0))
    ensures ParseBmp(buf).Ok? ==>
              var bmp := ParseBmp(buf).value;
              (r == Err(RampIndexOutOfRange) <==>
                 && bmp.width > 0 && cfg.width > 0 && NewHeight(bmp.height, bmp.width, cfg.width) > 0
                 && cfg.verticalScale != 0 && |cfg.ramp| == 0)
  {
    match ParseBmp(buf)
    case Err(e) => Err(e)
    case Ok(bmp) =>
      if bmp.width == 0 then Err(ZeroDivision)
      else
        var resized := ResizeImage(bmp.pixels, bmp.width, bmp.height, cfg.width);
        if |resized.pixels| > 0 && cfg.verticalScale == 0 then Err(ZeroDivision)
        else if !CanMap(resized.pixels, cfg.ramp, cfg.verticalScale) then Err(RampIndexOutOfRange)
        else Ok(PixelsToAscii(resized.pixels, cfg.ramp, cfg.verticalScale))
  }

  /** The output of a successful conversion: one line per kept row of the
      resampled image, each exactly `width` characters, every one from the ramp. */
  lemma ConvertOutput(buf: seq<Byte>, cfg: Config)
    requires Convert(buf, cfg).Ok?
    ensures var bmp := ParseBmp(buf).value;
            var newHeight := NewHeight(bmp.height, bmp.width, cfg.width);
            var lines := Convert(buf, cfg).value;
            && (newHeight <= 0 ==> lines == [])
            && (newHeight > 0 ==> cfg.width > 0 && cfg.verticalScale != 0 &&
                                  |lines| == CeilDiv(newHeight, Abs(cfg.verticalScale)))
            && (forall k :: 0 <= k < |lines| ==> |lines[k]| == cfg.width)
            && (forall k, x :: 0 <= k < |lines| && 0 <= x < |lines[k]| ==> lines[k][x] in cfg.ramp)
  {
    var bmp := ParseBmp(buf).value;
    var resized := ResizeImage(bmp.pixels, bmp.width, bmp.height, cfg.width);
    assert Convert(buf, cfg).value == PixelsToAscii(resized.pixels, cfg.ramp, cfg.verticalScale);
    if cfg.width > 0 {
      assert IsGrid(resized.pixels, cfg.width, resized.height);
      LinesFromRamp(resized.pixels, cfg.ramp, cfg.verticalScale, cfg.width);
    }
  }

  /** With the default options a conversion fails only when decoding fails or
      the image has zero width. */
  lemma DefaultConfigFailsOnlyOnInput(buf: seq<Byte>)
    ensures Convert(buf, DefaultConfig).Err? <==> ParseBmp(buf).Err? || ParseBmp(buf).value.width == 0
  {
  }

  /** A width of zero or less is no error: the output is simply empty. */
  lemma NonPositiveWidthDrawsNothing(buf: seq<Byte>, cfg: Config)
    requires ParseBmp(buf).Ok? && ParseBmp(buf).value.width > 0
    requires cfg.width <= 0
    ensures Convert(buf, cfg) == Ok([])
  {
  }

  /** End to end: a written image converted at its own width with no row
      skipping draws every one of its rows, top row first. */
  lemma ConvertWrittenImage(pixels: seq<seq<Pixel>>, w: nat, h: nat, bpp: nat, topDown: bool, ramp: string)
    requires IsGrid(pixels, w, h) && Writable(w, h, bpp) && w > 0 && |ramp| > 0
    ensures CanMap(pixels, ramp, 1)
    ensures Convert(EncodeBmp(pixels, w, h, bpp, topDown), Config(w, ramp, 1)) == Ok(PixelsToAscii(pixels, ramp, 1))
  {
    ParseEncodeBmp(pixels, w, h, bpp, topDown);
    ResizeIdentity(pixels, w, h);
  }

  /** The two lines of a black row over a white row with the ramp "@ ". */
  lemma BlackOverWhiteLines(black: Pixel, white: Pixel)
    requires black == Pixel(0, 0, 0) && white == Pixel(255, 255, 255)
    ensures PixelsToAscii([[black, black], [white, white]], "@ ", 1) == ["@@", "  "]
  {
    var pixels := [[black, black], [white, white]];
    LuminanceOfGrey(0);
    LuminanceOfGrey(255);
    RampIndexEnds(2);
    assert Glyph(black, "@ ") == '@';
    assert Glyph(white, "@ ") == ' ';
    var lines := PixelsToAscii(pixels, "@ ", 1);
    assert |lines| == CeilDiv(2, 1) == 2;
    assert lines[0] == RowToLine(pixels[0], "@ ") == "@@";
    assert lines[1] == RowToLine(pixels[1], "@ ") == "  ";
  }

  /** A 2 x 2 bottom-up 24-bit file whose top row is black and bottom row white,
      drawn at width 2 with the ramp "@ " and no row skipping. */
  lemma TwoByTwoExample()
    ensures Convert(EncodeBmp([[Pixel(0, 0, 0), Pixel(0, 0, 0)], [Pixel(255, 255, 255), Pixel(255, 255, 255)]], 2, 2, 24, false),
                    Config(2, "@ ", 1))
         == Ok(["@@", "  "])
  {
    var black, white := Pixel(0, 0, 0), Pixel(255, 255, 255);
    assert Writable(2, 2, 24) by {
      assert Half(4) == 0x8000_0000 && Pow256(4) == 0x1_0000_0000;
      assert RowSize(6) == 8;
    }
    ConvertWrittenImage([[black, black], [white, white]], 2, 2, 24, false, "@ ");
    BlackOverWhiteLines(black, white);
  }
}
