/** The image aggregate: header fields plus the row-major pixel buffer,
    its two transforms and its equality. */
module Images {
  import opened Wrappers
  import opened Numeric
  import opened Pixels

  /** `Image::new(magic, height, width, max_color, pixels)` is the
      constructor; `pixels()` is the `pixels` destructor. The buffer length
      is not tied to height * width by construction. */
  datatype Image = Image(magic: string, height: Usize, width: Usize, maxColor: Usize, pixels: seq<Pixel>)

  /** The number of pixels in h rows of w pixels, h * w, summed row by row
      so that reasoning about a row-major walk stays linear. */
  function Rows(h: nat, w: nat): nat
  {
    if h == 0 then 0 else Rows(h - 1, w) + w
  }

  lemma {:induction false} RowsIsProduct(h: nat, w: nat)
    ensures Rows(h, w) == h * w
  {
    if h > 0 {
      RowsIsProduct(h - 1, w);
      assert h * w == (h - 1) * w + w;
    }
  }

  lemma {:induction false} RowsMonotonic(h: nat, H: nat, w: nat)
    requires h <= H
    ensures Rows(h, w) <= Rows(H, w)
  {
    if h < H {
      RowsMonotonic(h, H - 1, w);
    }
  }

  /** Number of pixels the header announces, height * width. */
  function Size(im: Image): nat
  {
    Rows(im.height, im.width)
  }

  /** Row h of the raster, the pixels from Rows(h, width) on, lies inside it. */
  lemma RowInRaster(im: Image, h: nat)
    requires h < im.height
    ensures Rows(h + 1, im.width) == Rows(h, im.width) + im.width <= Size(im)
  {
    RowsMonotonic(h + 1, im.height, im.width);
  }

  /** The buffer holds at least the announced pixels, so indexing any of them is in range. */
  predicate HasRaster(im: Image)
  {
    |im.pixels| >= Size(im)
  }

  /** The image `Image::invert` builds: same header, exactly Size(im) pixels,
      each the inverse of the pixel at the same index. */
  function Inverted(im: Image): (out: Image)
    requires HasRaster(im)
    ensures out.magic == im.magic && out.height == im.height && out.width == im.width
    ensures out.maxColor == im.maxColor
    ensures |out.pixels| == Size(im)
    ensures forall i :: 0 <= i < Size(im) ==> out.pixels[i] == Invert(im.pixels[i])
  {
    im.(pixels := seq(Size(im), i requires 0 <= i < Size(im) => Invert(im.pixels[i])))
  }

  /** The image `Image::gray_scale` builds, likewise with GrayScale. */
  function GrayScaled(im: Image): (out: Image)
    requires HasRaster(im)
    ensures out.magic == im.magic && out.height == im.height && out.width == im.width
    ensures out.maxColor == im.maxColor
    ensures |out.pixels| == Size(im)
    ensures forall i :: 0 <= i < Size(im) ==> out.pixels[i] == GrayScale(im.pixels[i])
  {
    im.(pixels := seq(Size(im), i requires 0 <= i < Size(im) => GrayScale(im.pixels[i])))
  }

  /** `Image::invert`: pushes the inverse of each of the first height*width
      pixels into a fresh buffer and copies the header. */
  method InvertImage(im: Image) returns (out: Image)
    requires HasRaster(im)
    ensures out == Inverted(im)
  {
    RowsIsProduct(im.height, im.width);
    var invPixels: seq<Pixel> := [];
    for i := 0 to im.height * im.width
      invariant |invPixels| == i
      invariant forall j :: 0 <= j < i ==> invPixels[j] == Invert(im.pixels[j])
    {
      var invPixel := Invert(im.pixels[i]);
      invPixels := invPixels + [invPixel];
    }
    out := Image(im.magic, im.height, im.width, im.maxColor, invPixels);
  }

  /** `Image::gray_scale`: as InvertImage, with the gray level of each pixel. */
  method GrayScaleImage(im: Image) returns (out: Image)
    requires HasRaster(im)
    ensures out == GrayScaled(im)
  {
    RowsIsProduct(im.height, im.width);
    var grayPixels: seq<Pixel> := [];
    for i := 0 to im.height * im.width
      invariant |grayPixels| == i
      invariant forall j :: 0 <= j < i ==> grayPixels[j] == GrayScale(im.pixels[j])
    {
      var grayPixel := GrayScale(im.pixels[i]);
      grayPixels := grayPixels + [grayPixel];
    }
    out := Image(im.magic, im.height, im.width, im.maxColor, grayPixels);
  }

  /** What `==` on images decides: the first height*width pixels of `a`
      (height and width taken from `a`) agree with those of `b`. Magic,
      max_color, the dimensions of `b` and any further pixels play no part. */
  predicate SameRaster(a: Image, b: Image)
    requires HasRaster(a) && |b.pixels| >= Size(a)
  {
    a.pixels[..Size(a)] == b.pixels[..Size(a)]
  }

  /** Some index below n where both buffers still hold a pixel and the
      two pixels differ. */
  predicate MismatchBefore(a: Image, b: Image, n: nat)
  {
    exists j :: 0 <= j < n && j < |a.pixels| && j < |b.pixels| && a.pixels[j] != b.pixels[j]
  }

  /** `PartialEq::eq` for images: walks the first height*width indices of
      `self` and returns false at the first mismatch. Indexing past either
      buffer panics; that outcome is `None`. */
  method Equal(a: Image, b: Image) returns (r: Option<bool>)
    ensures r == Some(false) <==> MismatchBefore(a, b, Size(a))
    ensures r == Some(true) <==>
      !MismatchBefore(a, b, Size(a)) && Size(a) <= |a.pixels| && Size(a) <= |b.pixels|
    ensures r == None <==>
      !MismatchBefore(a, b, Size(a)) && (|a.pixels| < Size(a) || |b.pixels| < Size(a))
    ensures HasRaster(a) && |b.pixels| >= Size(a) ==> r == Some(SameRaster(a, b))
  {
    RowsIsProduct(a.height, a.width);
    for i := 0 to a.height * a.width
      invariant i <= |a.pixels| && i <= |b.pixels|
      invariant a.pixels[..i] == b.pixels[..i]
    {
      if i == |a.pixels| || i == |b.pixels| {
        assert !MismatchBefore(a, b, Size(a)) by {
          forall j | 0 <= j < Size(a) && j < |a.pixels| && j < |b.pixels|
            ensures a.pixels[j] == b.pixels[j]
          {
            assert a.pixels[..i][j] == b.pixels[..i][j];
          }
        }
        return None;
      }
      if !Equals(a.pixels[i], b.pixels[i]) {
        return Some(false);
      }
      assert a.pixels[..i + 1] == a.pixels[..i] + [a.pixels[i]];
      assert b.pixels[..i + 1] == b.pixels[..i] + [b.pixels[i]];
    }
    assert !MismatchBefore(a, b, Size(a)) by {
      forall j | 0 <= j < Size(a)
        ensures a.pixels[j] == b.pixels[j]
      {
        assert a.pixels[..Size(a)][j] == b.pixels[..Size(a)][j];
      }
    }
    return Some(true);
  }

  /** Inverting an image twice restores its first height*width pixels and its header. */
  lemma InvertedTwice(im: Image)
    requires HasRaster(im)
    ensures Inverted(Inverted(im)) == im.(pixels := im.pixels[..Size(im)])
    ensures SameRaster(im, Inverted(Inverted(im)))
  {
    var twice := Inverted(Inverted(im));
    forall i | 0 <= i < Size(im)
      ensures twice.pixels[i] == im.pixels[i]
    {
      InvertInvolutive(im.pixels[i]);
    }
    assert twice.pixels == im.pixels[..Size(im)];
  }

  /** An image with at least one announced pixel never equals its inverse
      (the image test `im != im.invert()`). */
  lemma InvertedDiffers(im: Image)
    requires HasRaster(im) && Size(im) >= 1
    ensures !SameRaster(im, Inverted(im))
  {
    InvertChangesEveryChannel(im.pixels[0]);
    assert im.pixels[..Size(im)][0] != Inverted(im).pixels[..Size(im)][0];
  }

  /** An image equals its gray-scaled version exactly when every announced
      pixel is gray with a level divisible by 3. */
  lemma GrayScaledSameIff(im: Image)
    requires HasRaster(im)
    ensures SameRaster(im, GrayScaled(im)) <==>
      forall i :: 0 <= i < Size(im) ==>
        im.pixels[i].red == im.pixels[i].green == im.pixels[i].blue && im.pixels[i].red % 3 == 0
  {
    var n := Size(im);
    var g := GrayScaled(im);
    forall i | 0 <= i < n
      ensures GrayScale(im.pixels[i]) == im.pixels[i] <==>
        im.pixels[i].red == im.pixels[i].green == im.pixels[i].blue && im.pixels[i].red % 3 == 0
    {
      GrayScaleFixedPoint(im.pixels[i]);
    }
    if SameRaster(im, g) {
      forall i | 0 <= i < n ensures GrayScale(im.pixels[i]) == im.pixels[i] {
        assert im.pixels[..n][i] == g.pixels[..n][i];
      }
    }
    if forall i :: 0 <= i < n ==> GrayScale(im.pixels[i]) == im.pixels[i] {
      assert im.pixels[..n] == g.pixels[..n];
    }
  }

  /** The two-pixel image of the library's own image tests. */
  function TestImage(): (im: Image)
    ensures HasRaster(im) && Size(im) == 2
  {
    Image("P3", 2, 1, 255, [Pixel(120, 30, 180), Pixel(120, 3, 180)])
  }

  /** The gray-scale test: the test image differs from its gray version. */
  lemma GrayScaledDiffersOnTestImage()
    ensures !SameRaster(TestImage(), GrayScaled(TestImage()))
  {
    var im := TestImage();
    assert GrayScale(im.pixels[0]).red == 110;
    assert im.pixels[..2][0] != GrayScaled(im).pixels[..2][0];
  }
}
