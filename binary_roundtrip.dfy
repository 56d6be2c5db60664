/** The binary layout `new_with_binary_file` expects: three header lines,
    each closed by '\n', then three bytes per pixel. The library writes no
    binary files itself; `BinaryFile` is that layout, and the lemmas here
    say what each reader makes of it. */
module BinaryRoundTrip {
  import opened Wrappers
  import opened Numeric
  import opened Text
  import opened Pixels
  import opened Images
  import opened TextDecoder
  import opened TextRoundTrip
  import opened BinaryDecoder

  /** The raster: each pixel's red, green and blue bytes, pixel after pixel. */
  function Raster(ps: seq<Pixel>): (bs: seq<Byte>)
    ensures |bs| == 3 * |ps|
  {
    if |ps| == 0 then []
    else
      var p := ps[|ps| - 1];
      Raster(ps[..|ps| - 1]) + [p.red, p.green, p.blue]
  }

  /** Pixel i of the raster sits at bytes 3i, 3i + 1 and 3i + 2. */
  lemma {:induction false} RasterAt(ps: seq<Pixel>)
    ensures forall i :: 0 <= i < |ps| ==>
      Raster(ps)[3 * i] == ps[i].red && Raster(ps)[3 * i + 1] == ps[i].green && Raster(ps)[3 * i + 2] == ps[i].blue
  {
    if |ps| > 0 {
      var init := ps[..|ps| - 1];
      RasterAt(init);
      assert forall i :: 0 <= i < |init| ==> init[i] == ps[i];
    }
  }

  /** Decimal numerals are plain header lines. */
  lemma DecPlain(n: nat)
    ensures PlainLine(Dec(n))
  {
    DecDigits(n);
  }

  /** So is "height width" as `save` writes it. */
  lemma DimensionsPlain(height: nat, width: nat)
    ensures PlainLine(Dec(height) + " " + Dec(width))
  {
    DecPlain(height);
    DecPlain(width);
  }

  /** The header lines for `im`: magic, "height width", max_color. */
  function HeaderLinesOf(im: Image): (lines: seq<string>)
    requires PlainLine(im.magic)
    ensures |lines| == 3 && PlainLines(lines)
  {
    DimensionsPlain(im.height, im.width);
    DecPlain(im.maxColor);
    [im.magic, Dec(im.height) + " " + Dec(im.width), Dec(im.maxColor)]
  }

  /** A binary file for `im`: its header lines, then the raster of its
      first height * width pixels. */
  function BinaryFile(im: Image): seq<Byte>
    requires HasRaster(im) && PlainLine(im.magic)
  {
    LinesBytes(HeaderLinesOf(im)) + Raster(im.pixels[..Size(im)])
  }

  /** The header `read_header` finds in a binary file is the file's
      header lines, read as the image's magic, dimensions and max_color,
      and the raster starts right after it. */
  lemma BinaryFileHeader(im: Image)
    requires HasRaster(im) && PlainLine(im.magic)
    ensures Header(BinaryFile(im)) == HeaderLinesOf(im)
    ensures HeaderEnd(BinaryFile(im), 0, 3) == |LinesBytes(HeaderLinesOf(im))|
    ensures ParseDimensions(HeaderLinesOf(im)[1]) == Ok((im.height, im.width))
    ensures ParseUsize(HeaderLinesOf(im)[2]) == Some(im.maxColor)
  {
    HeaderOfLines(HeaderLinesOf(im), Raster(im.pixels[..Size(im)]));
    DimensionsDecode(im.height, im.width);
    ParseUsizeOfDec(im.maxColor);
  }

  /** The corrected reader gives back the image a binary file was made
      of, cut to its first height * width pixels. */
  lemma BinaryFileDecodes(im: Image)
    requires HasRaster(im) && PlainLine(im.magic)
    ensures DecodeBinaryIntended(BinaryFile(im)) == Ok(im.(pixels := im.pixels[..Size(im)]))
  {
    var ps := im.pixels[..Size(im)];
    var bytes := BinaryFile(im);
    var start := |LinesBytes(HeaderLinesOf(im))|;
    BinaryFileHeader(im);
    var res := DecodeBinaryIntended(bytes);
    assert res.Ok?;
    var got := res.value.pixels;
    PixelsFromInRange(bytes, start, Size(im));
    RasterAt(ps);
    forall i | 0 <= i < Size(im)
      ensures got[i] == ps[i]
    {
      assert bytes[start + 3 * i] == Raster(ps)[3 * i];
      assert bytes[start + 3 * i + 1] == Raster(ps)[3 * i + 1];
      assert bytes[start + 3 * i + 2] == Raster(ps)[3 * i + 2];
    }
    assert got == ps;
  }

  /** A "P6" binary file starts with the bytes 80, 54, 10. */
  lemma P6Prefix(im: Image)
    requires HasRaster(im) && PlainLine(im.magic) && im.magic == "P6"
    ensures |BinaryFile(im)| >= 3
    ensures BinaryFile(im)[0] == 80 && BinaryFile(im)[1] == 54 && BinaryFile(im)[2] == NewlineByte
  {
    var lines := HeaderLinesOf(im);
    var tail := LinesBytes(lines[1..]) + Raster(im.pixels[..Size(im)]);
    assert BinaryFile(im) == AsciiBytes("P6") + [NewlineByte] + tail;
    AsciiBytesAt("P6");
  }

  /** The reader as written accepts the same file but takes its pixels
      from offset 0, so a "P6" file whose first pixel is not 80, 54, 10
      does not read back as the image it was made of. */
  lemma BinaryFileAsWritten(im: Image)
    requires HasRaster(im) && PlainLine(im.magic)
    ensures DecodeBinary(BinaryFile(im)).Ok?
    ensures im.magic == "P6" && Size(im) >= 1 && im.pixels[0] != Pixel(80, 54, 10) ==>
      DecodeBinary(BinaryFile(im)) != Ok(im.(pixels := im.pixels[..Size(im)]))
  {
    BinaryFileHeader(im);
    if im.magic == "P6" && Size(im) >= 1 {
      P6Prefix(im);
      BinaryReadsHeaderAsPixel(BinaryFile(im), DecodeBinary(BinaryFile(im)).value);
    }
  }

  /** A binary file whose header is written on one line, as the format
      description allows: "P6 1 2 255", then the raster (49,32,49),
      (10,53,10). */
  function MisreadFile(): seq<Byte>
  {
    AsciiBytes("P6 1 2 255") + [NewlineByte] + Raster([Pixel(49, 32, 49), Pixel(10, 53, 10)])
  }

  /** Its three lines are plain. */
  lemma MisreadPlain()
    ensures PlainLine("P6 1 2 255") && PlainLine("1 1") && PlainLine("5")
  {
  }

  /** The bytes of the lines "P6 1 2 255", "1 1" and "5" are the first of
      them, then the 2-pixel raster (49,32,49), (10,53,10). */
  lemma MisreadBytes()
    ensures LinesBytes(["P6 1 2 255", "1 1", "5"])
         == AsciiBytes("P6 1 2 255") + [NewlineByte] + [49, 32, 49, 10, 53, 10]
  {
    var lines := ["P6 1 2 255", "1 1", "5"];
    MisreadPlain();
    assert PlainLines(lines) by {
      forall k | 0 <= k < 3
        ensures PlainLine(lines[k])
      {
        assert k == 0 || k == 1 || k == 2;
      }
    }
    LinesBytesThree(lines);
    assert AsciiBytes("1 1") == [49, 32, 49] && AsciiBytes("5") == [53];
  }

  /** Its second and third lines parse as the dimensions (1, 1) and
      max_color 5. */
  lemma MisreadLines()
    ensures ParseDimensions("1 1") == Ok((1, 1)) && ParseUsize("5") == Some(5)
  {
    assert Dec(1) == "1" && Dec(5) == "5";
    assert Dec(1) + " " + Dec(1) == "1 1";
    DimensionsDecode(1, 1);
    ParseUsizeOfDec(5);
  }

  /** The file is those three lines, each closed by '\n'. */
  lemma MisreadFileLines()
    ensures MisreadFile() == LinesBytes(["P6 1 2 255", "1 1", "5"]) + []
  {
    MisreadBytes();
    assert Raster([Pixel(49, 32, 49), Pixel(10, 53, 10)]) == [49, 32, 49, 10, 53, 10];
  }

  /** That file reads as a 1x1 image with max_color 5. */
  lemma BinaryHeaderOnOneLineMisread()
    ensures DecodeBinary(MisreadFile()).Ok?
    ensures var im := DecodeBinary(MisreadFile()).value;
      im.magic == "P6 1 2 255" && im.height == 1 && im.width == 1 && im.maxColor == 5
  {
    MisreadPlain();
    MisreadLines();
    BinaryHeaderOnOneLineThenTwo("P6 1 2 255", "1 1", "5", []);
    MisreadFileLines();
  }
}
