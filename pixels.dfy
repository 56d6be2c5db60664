/** The RGB pixel value type: three `u8` samples. */
module Pixels {
  import opened Numeric

  /** `Pixel::new(red, green, blue)` is the constructor; the accessors
      `red()`, `green()`, `blue()` are its destructors. */
  datatype Pixel = Pixel(red: Byte, green: Byte, blue: Byte)

  /** `Pixel::invert`: every channel becomes its distance to 255, which
      never leaves the byte range. */
  function Invert(p: Pixel): (q: Pixel)
    ensures q.red + p.red == 255 && q.green + p.green == 255 && q.blue + p.blue == 255
  {
    Pixel(255 - p.red, 255 - p.green, 255 - p.blue)
  }

  /** `Pixel::gray_scale`: one gray level on all three channels, the sum of
      the channels each divided by 3 with truncation. That sum is at most
      3 * 85 = 255, so it never overflows a byte, and it lies within 2 below
      the truncated mean of the three channels. */
  function GrayScale(p: Pixel): (q: Pixel)
    ensures q.red == q.green == q.blue
    ensures q.red == p.red / 3 + p.green / 3 + p.blue / 3
    ensures q.red <= (p.red + p.green + p.blue) / 3 <= q.red + 2
  {
    var gray := p.red / 3 + p.green / 3 + p.blue / 3;
    Pixel(gray, gray, gray)
  }

  /** `PartialEq::eq` (and the identical inherent `Pixel::eq`): exact
      agreement of the three channels. */
  function Equals(p: Pixel, q: Pixel): (b: bool)
    ensures b <==> p == q
  {
    p.red == q.red && p.blue == q.blue && p.green == q.green
  }

  /** The constructor stores its arguments where the accessors find them. */
  lemma NewThenAccessors(r: Byte, g: Byte, b: Byte)
    ensures Pixel(r, g, b).red == r && Pixel(r, g, b).green == g && Pixel(r, g, b).blue == b
  {
  }

  /** Inverting twice gives the pixel back. */
  lemma InvertInvolutive(p: Pixel)
    ensures Invert(Invert(p)) == p
  {
  }

  /** Because 255 is odd, inversion changes every channel: no pixel is its own inverse. */
  lemma InvertChangesEveryChannel(p: Pixel)
    ensures Invert(p).red != p.red && Invert(p).green != p.green && Invert(p).blue != p.blue
    ensures Invert(p) != p
  {
  }

  lemma InvertExample()
    ensures Invert(Pixel(120, 150, 200)) == Pixel(135, 105, 55)
  {
  }

  lemma GrayScaleExample()
    ensures GrayScale(Pixel(120, 150, 200)) == Pixel(156, 156, 156)
  {
  }

  /** A pixel is left alone by gray_scale exactly when it is already gray
      with a level divisible by 3. */
  lemma GrayScaleFixedPoint(p: Pixel)
    ensures GrayScale(p) == p <==> p.red == p.green == p.blue && p.red % 3 == 0
  {
    if p.red == p.green == p.blue {
      assert GrayScale(p).red == 3 * (p.red / 3);
    }
  }

  /** Hence gray_scale is not idempotent: (1,1,3) goes to (1,1,1), which goes to (0,0,0). */
  lemma GrayScaleNotIdempotent()
    ensures GrayScale(Pixel(1, 1, 3)) == Pixel(1, 1, 1)
    ensures GrayScale(GrayScale(Pixel(1, 1, 3))) == Pixel(0, 0, 0)
  {
  }
}
