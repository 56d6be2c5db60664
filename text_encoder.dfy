/** The text form of an image as `Image::save` writes it. The file is
    replaced by the character sequence written to it. */
module TextEncoder {
  import opened Numeric
  import opened Pixels
  import opened Text
  import opened Images

  /** One pixel as `format!("{} {} {}", r, g, b)` writes it. */
  function PixelText(p: Pixel): string
  {
    Dec(p.red) + " " + Dec(p.green) + " " + Dec(p.blue)
  }

  /** The three header lines: magic, then height BEFORE width, then max_color. */
  function HeaderText(im: Image): string
  {
    im.magic + "\n" + Dec(im.height) + " " + Dec(im.width) + "\n" + Dec(im.maxColor) + "\n"
  }

  /** One line per pixel in order, each followed by '\n'. */
  function Closed(ps: seq<Pixel>): string
  {
    if |ps| == 0 then "" else Closed(ps[..|ps| - 1]) + (PixelText(ps[|ps| - 1]) + "\n")
  }

  /** One line per pixel in order, each followed by '\n', except that the
      last line's '\n' is left off when `finalNewline` is false. */
  function Body(ps: seq<Pixel>, finalNewline: bool): string
  {
    if |ps| == 0 || finalNewline then Closed(ps)
    else Closed(ps[..|ps| - 1]) + PixelText(ps[|ps| - 1])
  }

  predicate OneByOne(im: Image)
  {
    im.height == 1 && im.width == 1
  }

  /** What `Image::save` writes: the header, then the first height*width
      pixels one per line; only a 1x1 image loses the final '\n'. */
  function Encoded(im: Image): string
    requires HasRaster(im)
  {
    HeaderText(im) + Body(im.pixels[..Size(im)], !OneByOne(im))
  }

  /** What `Image::save` was meant to write: no '\n' after the last pixel of any image. */
  function EncodedIntended(im: Image): string
    requires HasRaster(im)
  {
    HeaderText(im) + Body(im.pixels[..Size(im)], false)
  }

  lemma MulMonotonic(a: nat, b: nat, c: nat)
    requires a <= b
    ensures a * c <= b * c
  {
    var d: nat := b - a;
    assert b * c == a * c + d * c;
  }

  /** Row-major indices of an H x W raster stay below H * W. */
  lemma RowMajorInRange(h: nat, w: nat, H: nat, W: nat)
    requires h < H && w < W
    ensures h * W + w < H * W
  {
    assert (h + 1) * W == h * W + W;
    MulMonotonic(h + 1, H, W);
  }

  /** The last-pixel test of `Image::save`, `h*w == height*width - 1` with
      h < height and w < width, holds only in a 1x1 image. */
  lemma LastPixelTestOnlyOneByOne(h: nat, w: nat, H: nat, W: nat)
    requires h < H && w < W
    ensures h * w == H * W - 1 <==> H == 1 && W == 1
  {
    if H == 1 && W == 1 {
      assert h == 0 && w == 0;
    } else {
      // h * w <= (H - 1) * (W - 1) == H * W - H - W + 1 <= H * W - 2
      MulMonotonic(h, H - 1, w);
      MulMonotonic(w, W - 1, H - 1);
      assert w * (H - 1) == (H - 1) * w;
      assert (W - 1) * (H - 1) == H * W - H - W + 1;
    }
  }

  /** The row-major index h*W + w is the last one, H*W - 1, exactly at the
      last row and column. */
  lemma LastRowMajorIndex(h: nat, w: nat, H: nat, W: nat)
    requires h < H && w < W
    ensures (h * W + w == H * W - 1) == (h == H - 1 && w == W - 1)
  {
    if h < H - 1 {
      MulMonotonic(h + 1, H - 1, W);
      assert (h + 1) * W == h * W + W;
    } else {
      assert H * W == h * W + W;
    }
  }

  /** The text `save` has written once `done` pixels are out: the header,
      then one line per pixel, each ending in '\n' unless the image is 1x1. */
  function WrittenAfter(im: Image, done: nat): string
    requires done <= |im.pixels|
  {
    if done == 0 then HeaderText(im)
    else if OneByOne(im) then WrittenAfter(im, done - 1) + PixelText(im.pixels[done - 1])
    else WrittenAfter(im, done - 1) + (PixelText(im.pixels[done - 1]) + "\n")
  }

  /** The text written so far is the header and the body of the pixels
      written, closed by '\n' until the last pixel of a 1x1 image. */
  lemma {:induction false} WrittenAfterIsPrefix(im: Image, done: nat)
    requires HasRaster(im) && done <= Size(im)
    ensures WrittenAfter(im, done)
            == HeaderText(im) + Body(im.pixels[..done], done < Size(im) || !OneByOne(im))
  {
    if done == 0 {
      assert WrittenAfter(im, done) == HeaderText(im) + "";
    } else {
      var k := done - 1;
      WrittenAfterIsPrefix(im, k);
      var ps := im.pixels[..done];
      assert ps[..k] == im.pixels[..k];
      if OneByOne(im) {
        RowsIsProduct(im.height, im.width);
        ConcatAssoc(HeaderText(im), Closed(im.pixels[..k]), PixelText(ps[k]));
      } else {
        ConcatAssoc(HeaderText(im), Closed(im.pixels[..k]), PixelText(ps[k]) + "\n");
      }
    }
  }

  /** Before any pixel `save` has written the header alone, and after
      the last one it has written the whole encoding. */
  lemma WrittenAfterEnds(im: Image, done: nat)
    requires HasRaster(im) && done == Size(im)
    ensures WrittenAfter(im, 0) == HeaderText(im)
    ensures WrittenAfter(im, done) == Encoded(im)
  {
    WrittenAfterIsPrefix(im, done);
  }

  /** The inner loop of `save` at row h, column w of an H x W raster,
      after `done` = h*W + w pixels: the index read is `done`, and the
      last-pixel test `h*w == H*W - 1` holds only when H and W are 1. */
  lemma SaveIndex(h: nat, w: nat, H: nat, W: nat, done: nat)
    requires h < H && w < W && done == Rows(h, W) + w
    ensures h * W + w == done < Rows(H, W)
    ensures (h * w == H * W - 1) == (H == 1 && W == 1)
  {
    RowsIsProduct(h, W);
    RowsIsProduct(H, W);
    RowMajorInRange(h, w, H, W);
    LastPixelTestOnlyOneByOne(h, w, H, W);
  }

  /** One more pixel out: its line, without '\n' only in a 1x1 image. */
  lemma WrittenAfterStep(im: Image, done: nat)
    requires done < |im.pixels|
    ensures OneByOne(im) ==>
      WrittenAfter(im, done + 1) == WrittenAfter(im, done) + PixelText(im.pixels[done])
    ensures !OneByOne(im) ==>
      WrittenAfter(im, done + 1) == WrittenAfter(im, done) + (PixelText(im.pixels[done]) + "\n")
  {
  }

  /** The body of the inner loop of `Image::save`: reads the pixel at
      `h*width + w` and writes its line, leaving off the '\n' when
      `h*w == height*width - 1`. `done` = h*width + w pixels are out. */
  method SavePixel(im: Image, h: nat, w: nat, ghost done: nat, text: string) returns (out: string)
    requires HasRaster(im) && h < im.height && w < im.width && done == Rows(h, im.width) + w
    requires done < Size(im) && text == WrittenAfter(im, done)
    ensures out == WrittenAfter(im, done + 1)
  {
    SaveIndex(h, w, im.height, im.width, done);
    WrittenAfterStep(im, done);
    var pixel := im.pixels[h * im.width + w];
    if h * w == im.height * im.width - 1 {
      var row := PixelText(pixel);
      out := text + row;
    } else {
      var row := PixelText(pixel) + "\n";
      out := text + row;
    }
  }

  /** The inner loop of `Image::save` over the columns of row h, which
      starts after `done` = h*width pixels. */
  method SaveRow(im: Image, h: nat, ghost done: nat, text: string) returns (out: string)
    requires HasRaster(im) && h < im.height && done == Rows(h, im.width)
    requires done + im.width <= Size(im) && text == WrittenAfter(im, done)
    ensures out == WrittenAfter(im, done + im.width)
  {
    out := text;
    for w := 0 to im.width
      invariant out == WrittenAfter(im, done + w)
    {
      out := SavePixel(im, h, w, done + w, out);
    }
  }

  /** `Image::save`, the file replaced by the text it receives: the header,
      then the rows of pixel lines in row-major order. */
  method Save(im: Image) returns (out: string)
    requires HasRaster(im)
    ensures out == Encoded(im)
  {
    out := HeaderText(im);
    ghost var done: nat := 0;  // pixels written so far
    var h := 0;
    while h < im.height
      invariant 0 <= h <= im.height
      invariant done == Rows(h, im.width) <= Size(im)
      invariant out == WrittenAfter(im, done)
    {
      RowInRaster(im, h);
      out := SaveRow(im, h, done, out);
      done := done + im.width;
      h := h + 1;
    }
    WrittenAfterEnds(im, done);
  }

  /** The text the intended `save` has written once `done` pixels are out:
      every line ends in '\n' except the one of the last pixel. */
  function WrittenIntendedAfter(im: Image, done: nat): string
    requires done <= |im.pixels|
  {
    if done == 0 then HeaderText(im)
    else if done == Size(im) then WrittenIntendedAfter(im, done - 1) + PixelText(im.pixels[done - 1])
    else WrittenIntendedAfter(im, done - 1) + (PixelText(im.pixels[done - 1]) + "\n")
  }

  lemma {:induction false} WrittenIntendedAfterIsPrefix(im: Image, done: nat)
    requires HasRaster(im) && done <= Size(im)
    ensures WrittenIntendedAfter(im, done) == HeaderText(im) + Body(im.pixels[..done], done < Size(im))
  {
    if done == 0 {
      assert WrittenIntendedAfter(im, done) == HeaderText(im) + "";
    } else {
      var k := done - 1;
      WrittenIntendedAfterIsPrefix(im, k);
      var ps := im.pixels[..done];
      assert ps[..k] == im.pixels[..k];
      if done == Size(im) {
        ConcatAssoc(HeaderText(im), Closed(im.pixels[..k]), PixelText(ps[k]));
      } else {
        ConcatAssoc(HeaderText(im), Closed(im.pixels[..k]), PixelText(ps[k]) + "\n");
      }
    }
  }

  /** The same two ends for the intended `save`. */
  lemma WrittenIntendedAfterEnds(im: Image, done: nat)
    requires HasRaster(im) && done == Size(im)
    ensures WrittenIntendedAfter(im, 0) == HeaderText(im)
    ensures WrittenIntendedAfter(im, done) == EncodedIntended(im)
  {
    WrittenIntendedAfterIsPrefix(im, done);
  }

  /** The inner loop of the intended `save`: the index read is `done`, and
      it is the last one, H*W - 1, exactly at the last row and column. */
  lemma SaveIntendedIndex(h: nat, w: nat, H: nat, W: nat, done: nat)
    requires h < H && w < W && done == Rows(h, W) + w
    ensures h * W + w == done < Rows(H, W)
    ensures (h == H - 1 && w == W - 1) == (done + 1 == Rows(H, W))
  {
    RowsIsProduct(h, W);
    RowsIsProduct(H, W);
    RowMajorInRange(h, w, H, W);
    LastRowMajorIndex(h, w, H, W);
  }

  /** One more pixel out: its line, without '\n' only for the last pixel. */
  lemma WrittenIntendedAfterStep(im: Image, done: nat)
    requires done < |im.pixels|
    ensures done + 1 == Size(im) ==>
      WrittenIntendedAfter(im, done + 1) == WrittenIntendedAfter(im, done) + PixelText(im.pixels[done])
    ensures done + 1 != Size(im) ==>
      WrittenIntendedAfter(im, done + 1)
        == WrittenIntendedAfter(im, done) + (PixelText(im.pixels[done]) + "\n")
  {
  }

  /** The body of the inner loop of the intended `save`: the '\n' is left
      off after the pixel in the last row and column. */
  method SaveIntendedPixel(im: Image, h: nat, w: nat, ghost done: nat, text: string) returns (out: string)
    requires HasRaster(im) && h < im.height && w < im.width && done == Rows(h, im.width) + w
    requires done < Size(im) && text == WrittenIntendedAfter(im, done)
    ensures out == WrittenIntendedAfter(im, done + 1)
  {
    SaveIntendedIndex(h, w, im.height, im.width, done);
    WrittenIntendedAfterStep(im, done);
    var pixel := im.pixels[h * im.width + w];
    if h == im.height - 1 && w == im.width - 1 {
      var row := PixelText(pixel);
      out := text + row;
    } else {
      var row := PixelText(pixel) + "\n";
      out := text + row;
    }
  }

  /** The inner loop of the intended `save` over the columns of row h. */
  method SaveIntendedRow(im: Image, h: nat, ghost done: nat, text: string) returns (out: string)
    requires HasRaster(im) && h < im.height && done == Rows(h, im.width)
    requires done + im.width <= Size(im) && text == WrittenIntendedAfter(im, done)
    ensures out == WrittenIntendedAfter(im, done + im.width)
  {
    out := text;
    for w := 0 to im.width
      invariant out == WrittenIntendedAfter(im, done + w)
    {
      out := SaveIntendedPixel(im, h, w, done + w, out);
    }
  }

  /** `Image::save` with the last-pixel test it evidently meant. */
  method SaveIntended(im: Image) returns (out: string)
    requires HasRaster(im)
    ensures out == EncodedIntended(im)
  {
    out := HeaderText(im);
    ghost var done: nat := 0;  // pixels written so far
    var h := 0;
    while h < im.height
      invariant 0 <= h <= im.height
      invariant done == Rows(h, im.width) <= Size(im)
      invariant out == WrittenIntendedAfter(im, done)
    {
      RowInRaster(im, h);
      out := SaveIntendedRow(im, h, done, out);
      done := done + im.width;
      h := h + 1;
    }
    WrittenIntendedAfterEnds(im, done);
  }

  lemma BodyLastChar(ps: seq<Pixel>, finalNewline: bool)
    requires |ps| >= 1
    ensures |Body(ps, finalNewline)| >= 1
    ensures Body(ps, finalNewline)[|Body(ps, finalNewline)| - 1] == '\n' <==> finalNewline
  {
    var t := PixelText(ps[|ps| - 1]);
    var d := Dec(ps[|ps| - 1].blue);
    assert t[|t| - 1] == d[|d| - 1];
  }

  /** As written, `save` ends its output with '\n' unless the image is 1x1
      (an empty raster leaves the header's own final '\n'). */
  lemma EncodedEnding(im: Image)
    requires HasRaster(im)
    ensures |Encoded(im)| >= 1
    ensures Encoded(im)[|Encoded(im)| - 1] == '\n' <==> !OneByOne(im)
  {
    var ps := im.pixels[..Size(im)];
    if |ps| >= 1 {
      BodyLastChar(ps, !OneByOne(im));
    }
  }

  /** As intended, the output ends with '\n' only when there is no pixel to write. */
  lemma EncodedIntendedEnding(im: Image)
    requires HasRaster(im)
    ensures |EncodedIntended(im)| >= 1
    ensures EncodedIntended(im)[|EncodedIntended(im)| - 1] == '\n' <==> Size(im) == 0
  {
    var ps := im.pixels[..Size(im)];
    if |ps| >= 1 {
      BodyLastChar(ps, false);
    }
  }

  lemma BodyOfTwo(p: Pixel, q: Pixel)
    ensures Body([p, q], true) == PixelText(p) + "\n" + PixelText(q) + "\n"
    ensures Body([p, q], false) == PixelText(p) + "\n" + PixelText(q)
  {
    assert [p, q][..1] == [p] && [p][..0] == [];
    assert Closed([p]) == PixelText(p) + "\n";
  }

  lemma DecSamples()
    ensures Dec(120) == "120" && Dec(30) == "30" && Dec(3) == "3" && Dec(180) == "180"
    ensures Dec(2) == "2" && Dec(1) == "1" && Dec(255) == "255"
  {
    assert Dec(12) == "12" && Dec(18) == "18" && Dec(25) == "25";
  }

  lemma TestImageLines()
    ensures HeaderText(TestImage()) == "P3\n2 1\n255\n"
    ensures PixelText(Pixel(120, 30, 180)) == "120 30 180"
    ensures PixelText(Pixel(120, 3, 180)) == "120 3 180"
  {
    DecSamples();
  }

  /** The library's save-and-load test image: as written, `save` ends its
      text with a '\n' after the last pixel. */
  lemma EncodedTestImage()
    ensures Encoded(TestImage()) == "P3\n2 1\n255\n120 30 180\n120 3 180\n"
  {
    var im := TestImage();
    var ps := im.pixels[..Size(im)];
    assert ps == [Pixel(120, 30, 180), Pixel(120, 3, 180)];
    BodyOfTwo(Pixel(120, 30, 180), Pixel(120, 3, 180));
    TestImageLines();
  }

  /** As intended, the same image's text stops right after its last sample. */
  lemma EncodedIntendedTestImage()
    ensures EncodedIntended(TestImage()) == "P3\n2 1\n255\n120 30 180\n120 3 180"
  {
    var im := TestImage();
    var ps := im.pixels[..Size(im)];
    assert ps == [Pixel(120, 30, 180), Pixel(120, 3, 180)];
    BodyOfTwo(Pixel(120, 30, 180), Pixel(120, 3, 180));
    TestImageLines();
  }
}
