/** What `new_with_file` reads back from the text `save` writes: the
    header fields and exactly the height * width pixels that were saved. */
module TextRoundTrip {
  import opened Wrappers
  import opened Numeric
  import opened Text
  import opened Pixels
  import opened Images
  import opened TextEncoder
  import opened TextDecoder

  /** The line each pixel is written as, in order. */
  function PixelLines(ps: seq<Pixel>): (ls: seq<string>)
    ensures |ls| == |ps|
  {
    seq(|ps|, i requires 0 <= i < |ps| => PixelText(ps[i]))
  }

  /** A pixel's line holds no '\n'. */
  lemma PixelTextNoNewline(p: Pixel)
    ensures NoNewline(PixelText(p))
  {
    DecIsWord(p.red);
    DecIsWord(p.green);
    DecIsWord(p.blue);
  }

  /** The header splits into its three lines, the rest following them. */
  lemma HeaderLines(im: Image, rest: string)
    requires NoNewline(im.magic)
    ensures Lines(HeaderText(im) + rest)
         == [im.magic, Dec(im.height) + " " + Dec(im.width), Dec(im.maxColor)] + Lines(rest)
  {
    var dims := Dec(im.height) + " " + Dec(im.width);
    DecIsWord(im.height);
    DecIsWord(im.width);
    DecIsWord(im.maxColor);
    assert HeaderText(im) + rest == im.magic + "\n" + (dims + "\n" + (Dec(im.maxColor) + "\n" + rest));
    LinesCons(Dec(im.maxColor), rest);
    LinesCons(dims, Dec(im.maxColor) + "\n" + rest);
    LinesCons(im.magic, dims + "\n" + (Dec(im.maxColor) + "\n" + rest));
  }

  /** Closed pixel lines split into one piece per pixel. */
  lemma {:induction false} ClosedLines(ps: seq<Pixel>, rest: string)
    ensures Lines(Closed(ps) + rest) == PixelLines(ps) + Lines(rest)
  {
    if |ps| == 0 {
      assert Closed(ps) + rest == rest;
    } else {
      var init, last := ps[..|ps| - 1], ps[|ps| - 1];
      var tail := PixelText(last) + "\n" + rest;
      ConcatAssoc(Closed(init), PixelText(last) + "\n", rest);
      ClosedLines(init, tail);
      PixelTextNoNewline(last);
      LinesCons(PixelText(last), rest);
      assert PixelLines(ps) == PixelLines(init) + [PixelText(last)];
    }
  }

  /** The body splits into one piece per pixel, plus an empty last piece
      when it ends in '\n' (or holds no pixel at all). */
  lemma BodyLines(ps: seq<Pixel>, finalNewline: bool)
    ensures |ps| == 0 || finalNewline ==> Lines(Body(ps, finalNewline)) == PixelLines(ps) + [""]
    ensures |ps| > 0 && !finalNewline ==> Lines(Body(ps, finalNewline)) == PixelLines(ps)
  {
    if |ps| == 0 || finalNewline {
      ClosedLines(ps, "");
      assert Closed(ps) + "" == Closed(ps);
      LinesSingle("");
    } else {
      var init, last := ps[..|ps| - 1], ps[|ps| - 1];
      ClosedLines(init, PixelText(last));
      PixelTextNoNewline(last);
      LinesSingle(PixelText(last));
      assert PixelLines(ps) == PixelLines(init) + [PixelText(last)];
    }
  }

  /** A pixel's line reads back as that pixel alone. */
  lemma PixelLineDecodes(p: Pixel)
    ensures LinePixels(PixelText(p)) == Ok([p])
  {
    DecIsWord(p.red);
    DecIsWord(p.green);
    DecIsWord(p.blue);
    TokensSingle(Dec(p.blue));
    TokensCons(Dec(p.green), ' ', Dec(p.blue));
    assert PixelText(p) == Dec(p.red) + " " + (Dec(p.green) + " " + Dec(p.blue));
    TokensCons(Dec(p.red), ' ', Dec(p.green) + " " + Dec(p.blue));
    var colors := Tokens(PixelText(p));
    assert colors == [Dec(p.red), Dec(p.green), Dec(p.blue)];
    ParseU8OfDec(p.red);
    ParseU8OfDec(p.green);
    ParseU8OfDec(p.blue);
    assert ParsePixel(colors[0], colors[1], colors[2]) == Ok(p);
    assert Triplets(colors, 0) == Ok([]);
    assert [] + [p] == [p];
    assert Triplets(colors, 1) == Ok([p]);
  }

  /** An empty line gives no pixel. */
  lemma EmptyLineDecodes()
    ensures LinePixels("") == Ok([])
  {
    assert Tokens("") == [];
  }

  /** The pixel lines read back as the pixels, in order. */
  lemma {:induction false} PixelLinesDecode(ps: seq<Pixel>)
    ensures LinesPixels(PixelLines(ps)) == Ok(ps)
  {
    if |ps| > 0 {
      var init, last := ps[..|ps| - 1], ps[|ps| - 1];
      PixelLinesSnoc(init, last);
      PixelLinesDecode(init);
      PixelLineDecodes(last);
      LinesPixelsSnoc(PixelLines(init), PixelText(last), init, [last]);
      assert init + [last] == ps;
    }
  }

  /** One more pixel adds its line at the end. */
  lemma PixelLinesSnoc(ps: seq<Pixel>, p: Pixel)
    ensures PixelLines(ps + [p]) == PixelLines(ps) + [PixelText(p)]
  {
  }

  /** The raster part of a body reads back as its pixels, with or without
      the final '\n'. */
  lemma BodyDecodes(ps: seq<Pixel>, finalNewline: bool)
    ensures LinesPixels(Lines(Body(ps, finalNewline))) == Ok(ps)
  {
    BodyLines(ps, finalNewline);
    PixelLinesDecode(ps);
    if |ps| == 0 || finalNewline {
      var ls := PixelLines(ps) + [""];
      assert ls[..|ls| - 1] == PixelLines(ps);
      EmptyLineDecodes();
      assert ps + [] == ps;
    }
  }

  /** The dimensions line reads back as height then width. */
  lemma DimensionsDecode(height: Usize, width: Usize)
    ensures ParseDimensions(Dec(height) + " " + Dec(width)) == Ok((height, width))
  {
    DecIsWord(height);
    DecIsWord(width);
    TokensSingle(Dec(width));
    TokensCons(Dec(height), ' ', Dec(width));
    ParseUsizeOfDec(height);
    ParseUsizeOfDec(width);
  }

  /** Any header followed by any body reads back as that header and the
      body's pixels. */
  lemma DecodesHeaderAndBody(im: Image, ps: seq<Pixel>, finalNewline: bool)
    requires NoNewline(im.magic)
    ensures DecodeText(HeaderText(im) + Body(ps, finalNewline)) == Ok(im.(pixels := ps))
  {
    var body := Body(ps, finalNewline);
    HeaderLines(im, body);
    var data := Lines(HeaderText(im) + body);
    assert data[3..] == Lines(body);
    BodyDecodes(ps, finalNewline);
    DimensionsDecode(im.height, im.width);
    ParseUsizeOfDec(im.maxColor);
  }

  /** `new_with_file` reads back what `save` wrote: the header fields and
      the first height * width pixels, whether or not the final '\n' was
      left off; pixels beyond them are not saved. */
  lemma SaveThenLoad(im: Image)
    requires HasRaster(im) && NoNewline(im.magic)
    ensures DecodeText(Encoded(im)) == Ok(im.(pixels := im.pixels[..Size(im)]))
  {
    DecodesHeaderAndBody(im, im.pixels[..Size(im)], !OneByOne(im));
  }

  /** The same for the intended `save`. */
  lemma SaveIntendedThenLoad(im: Image)
    requires HasRaster(im) && NoNewline(im.magic)
    ensures DecodeText(EncodedIntended(im)) == Ok(im.(pixels := im.pixels[..Size(im)]))
  {
    DecodesHeaderAndBody(im, im.pixels[..Size(im)], false);
  }

  /** An image whose buffer holds exactly its raster is read back equal to
      itself, in the sense of `Image::eq` as well. */
  lemma SaveThenLoadSame(im: Image)
    requires |im.pixels| == Size(im) && NoNewline(im.magic)
    ensures DecodeText(Encoded(im)) == Ok(im)
    ensures SameRaster(DecodeText(Encoded(im)).value, im)
  {
    SaveThenLoad(im);
    assert im.pixels[..Size(im)] == im.pixels;
  }

  /** The library's save-and-load test: the two-pixel image is read back
      equal to itself. */
  lemma SaveAndLoadTestImage()
    ensures DecodeText(Encoded(TestImage())) == Ok(TestImage())
    ensures SameRaster(TestImage(), DecodeText(Encoded(TestImage())).value)
  {
    assert NoNewline(TestImage().magic);
    SaveThenLoadSame(TestImage());
  }

  /** For example, "P3 2 1 255" followed by the lines "7 8" and "9" reads
      as a 7x8 image with max_color 9 and no pixels. */
  lemma HeaderOnOneLineMisread()
    ensures DecodeText("P3 2 1 255\n7 8\n9\n") == Ok(Image("P3 2 1 255", 7, 8, 9, []))
  {
    assert Dec(7) + " " + Dec(8) == "7 8" && Dec(9) == "9";
    DimensionsDecode(7, 8);
    ParseUsizeOfDec(9);
    HeaderOnOneLineThenTwo("P3 2 1 255", "7 8", "9");
    assert "P3 2 1 255" + "\n" + "7 8" + "\n" + "9" + "\n" == "P3 2 1 255\n7 8\n9\n";
  }
}
