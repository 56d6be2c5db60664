/** The text form of an image as `new_with_file` reads it. The file is
    replaced by its contents as a character sequence. */
module TextDecoder {
  import opened Wrappers
  import opened Numeric
  import opened Text
  import opened Pixels
  import opened Images

  /** Three sample tokens as one pixel, each parsed as a `u8` (red, green, blue). */
  function ParsePixel(r: string, g: string, b: string): (res: Result<Pixel>)
    ensures res.Ok? <==> ParseU8(r).Some? && ParseU8(g).Some? && ParseU8(b).Some?
    ensures res.Ok? ==> res.value == Pixel(ParseU8(r).value, ParseU8(g).value, ParseU8(b).value)
    ensures res.Err? ==> res.error == InvalidSample
  {
    match (ParseU8(r), ParseU8(g), ParseU8(b))
    case (Some(red), Some(green), Some(blue)) => Ok(Pixel(red, green, blue))
    case _ => Err(InvalidSample)
  }

  /** The first `count` triplets of `colors` as pixels; fails when any of
      their samples is not a `u8`. */
  function Triplets(colors: seq<string>, count: nat): (res: Result<seq<Pixel>>)
    requires 3 * count <= |colors|
    ensures res.Ok? ==> |res.value| == count
    ensures res.Err? ==> res.error == InvalidSample
  {
    if count == 0 then Ok([])
    else
      var k := count - 1;
      match Triplets(colors, k)
      case Err(e) => Err(e)
      case Ok(ps) =>
        match ParsePixel(colors[3 * k], colors[3 * k + 1], colors[3 * k + 2])
        case Err(e) => Err(e)
        case Ok(p) => Ok(ps + [p])
  }

  /** The triplets decode exactly when each of them does. */
  lemma {:induction false} TripletsOk(colors: seq<string>, count: nat)
    requires 3 * count <= |colors|
    ensures Triplets(colors, count).Ok?
      <==> forall i :: 0 <= i < count ==> ParsePixel(colors[3 * i], colors[3 * i + 1], colors[3 * i + 2]).Ok?
  {
    if count > 0 {
      TripletsOk(colors, count - 1);
    }
  }

  /** Pixel i is the one parsed from samples 3i, 3i+1 and 3i+2. */
  lemma {:induction false} TripletsAt(colors: seq<string>, count: nat)
    requires 3 * count <= |colors|
    ensures Triplets(colors, count).Ok? ==> forall i :: 0 <= i < count ==>
      Ok(Triplets(colors, count).value[i]) == ParsePixel(colors[3 * i], colors[3 * i + 1], colors[3 * i + 2])
  {
    if count > 0 {
      var k := count - 1;
      TripletsAt(colors, k);
      var res := Triplets(colors, count);
      if res.Ok? {
        var ps := Triplets(colors, k).value;
        assert res.value == ps + [res.value[k]];
        forall i | 0 <= i < k
          ensures res.value[i] == ps[i]
        {
        }
      }
    }
  }

  /** The pixels one raster line contributes: its whitespace tokens grouped
      in threes; a last incomplete group is dropped. */
  function LinePixels(line: string): (res: Result<seq<Pixel>>)
  {
    var colors := Tokens(line);
    Triplets(colors, |colors| / 3)
  }

  /** The pixels of all raster lines in order, with no carry of leftover
      tokens from one line to the next. */
  function LinesPixels(lines: seq<string>): (res: Result<seq<Pixel>>)
    ensures res.Err? ==> res.error == InvalidSample
  {
    if |lines| == 0 then Ok([])
    else
      match LinesPixels(lines[..|lines| - 1])
      case Err(e) => Err(e)
      case Ok(ps) =>
        match LinePixels(lines[|lines| - 1])
        case Err(e) => Err(e)
        case Ok(qs) => Ok(ps + qs)
  }

  /** How many pixels the raster lines announce: a third (rounded down) of
      each line's token count. */
  function TripletCount(lines: seq<string>): nat
  {
    if |lines| == 0 then 0
    else TripletCount(lines[..|lines| - 1]) + |Tokens(lines[|lines| - 1])| / 3
  }

  /** The raster lines decode exactly when every one of them does. */
  lemma {:induction false} LinesPixelsOk(lines: seq<string>)
    ensures LinesPixels(lines).Ok? <==> forall i :: 0 <= i < |lines| ==> LinePixels(lines[i]).Ok?
  {
    if |lines| > 0 {
      var init, last := lines[..|lines| - 1], lines[|lines| - 1];
      LinesPixelsOk(init);
      assert forall i :: 0 <= i < |init| ==> init[i] == lines[i];
      assert (forall i :: 0 <= i < |lines| ==> LinePixels(lines[i]).Ok?)
        <==> (forall i :: 0 <= i < |init| ==> LinePixels(init[i]).Ok?) && LinePixels(last).Ok?;
    }
  }

  /** Decoded raster lines give as many pixels as they announce. */
  lemma {:induction false} LinesPixelsCount(lines: seq<string>)
    ensures LinesPixels(lines).Ok? ==> |LinesPixels(lines).value| == TripletCount(lines)
  {
    if |lines| > 0 && LinesPixels(lines).Ok? {
      var init, last := lines[..|lines| - 1], lines[|lines| - 1];
      LinesPixelsCount(init);
      assert |LinePixels(last).value| == |Tokens(last)| / 3;
    }
  }

  /** One more raster line after raster lines that decoded. */
  lemma LinesPixelsSnoc(lines: seq<string>, line: string, ps: seq<Pixel>, qs: seq<Pixel>)
    requires LinesPixels(lines) == Ok(ps) && LinePixels(line) == Ok(qs)
    ensures LinesPixels(lines + [line]) == Ok(ps + qs)
  {
    assert (lines + [line])[..|lines|] == lines;
  }

  /** A raster line that fails makes the whole raster fail. */
  lemma LinesPixelsFail(lines: seq<string>, i: nat)
    requires i < |lines| && LinePixels(lines[i]).Err?
    ensures LinesPixels(lines) == Err(InvalidSample)
  {
    LinesPixelsOk(lines);
  }

  /** Height and width from a header line: its first two whitespace tokens,
      height first, each a `usize`. */
  function ParseDimensions(line: string): (res: Result<(Usize, Usize)>)
    ensures res.Ok? <==> |Tokens(line)| >= 2 && ParseUsize(Tokens(line)[0]).Some? && ParseUsize(Tokens(line)[1]).Some?
    ensures res.Ok? ==> res.value == (ParseUsize(Tokens(line)[0]).value, ParseUsize(Tokens(line)[1]).value)
    ensures res.Err? ==> res.error == MalformedHeader
  {
    var heightWidth := Tokens(line);
    if |heightWidth| < 2 then Err(MalformedHeader)
    else
      match (ParseUsize(heightWidth[0]), ParseUsize(heightWidth[1]))
      case (Some(height), Some(width)) => Ok((height, width))
      case _ => Err(MalformedHeader)
  }

  /** What `new_with_file` makes of a file's contents: lines split on '\n';
      fewer than three lines fail; every line from the fourth on gives its
      pixels; then height and width from line 1 and max_color from line 2
      parsed whole; magic is line 0 verbatim. A failure among the samples
      is met before one in the header, as in the source's evaluation order. */
  function DecodeText(contents: string): (res: Result<Image>)
    ensures res == Err(MissingHeaderLine) <==> |Lines(contents)| < 3
    ensures (|Lines(contents)| >= 3 && LinesPixels(Lines(contents)[3..]).Ok?
             && ParseDimensions(Lines(contents)[1]).Ok? && ParseUsize(Lines(contents)[2]).Some?)
            ==> res.Ok?
    ensures |Lines(contents)| >= 3 && LinesPixels(Lines(contents)[3..]).Err? ==> res == Err(InvalidSample)
    ensures (|Lines(contents)| >= 3 && LinesPixels(Lines(contents)[3..]).Ok?
             && (ParseDimensions(Lines(contents)[1]).Err? || ParseUsize(Lines(contents)[2]).None?))
            ==> res == Err(MalformedHeader)
    ensures res.Ok? ==> res.value.magic == Lines(contents)[0] && NoNewline(res.value.magic)
    ensures res.Ok? ==> LinesPixels(Lines(contents)[3..]) == Ok(res.value.pixels)
    ensures res.Ok? ==> ParseDimensions(Lines(contents)[1]) == Ok((res.value.height, res.value.width))
    ensures res.Ok? ==> ParseUsize(Lines(contents)[2]) == Some(res.value.maxColor)
  {
    var data := Lines(contents);
    if |data| < 3 then Err(MissingHeaderLine)
    else
      match LinesPixels(data[3..])
      case Err(e) => Err(e)
      case Ok(pixels) =>
        match ParseDimensions(data[1])
        case Err(e) => Err(e)
        case Ok(hw) =>
          match ParseUsize(data[2])
          case None => Err(MalformedHeader)
          case Some(maxColor) => Ok(Image(data[0], hw.0, hw.1, maxColor, pixels))
  }

  /** The format description lets any whitespace separate the four header
      fields; the reader wants three '\n'-separated lines. A header written
      on one line is not read: alone, lines 1 and 2 are missing; followed by
      one raster line, that line is taken as the dimensions and the empty
      piece after the last '\n' as max_color. */
  lemma HeaderOnOneLine(header: string, raster: string)
    requires NoNewline(header) && NoNewline(raster)
    ensures DecodeText(header + "\n") == Err(MissingHeaderLine)
    ensures DecodeText(header + "\n" + raster + "\n") == Err(MalformedHeader)
  {
    LinesSingle("");
    LinesCons(header, "");
    assert header + "\n" + "" == header + "\n";
    LinesCons(raster, "");
    assert raster + "\n" + "" == raster + "\n";
    LinesCons(header, raster + "\n");
    assert header + "\n" + (raster + "\n") == header + "\n" + raster + "\n";
    assert Lines(header + "\n" + raster + "\n") == [header, raster, ""];
  }

  /** When two more lines follow a one-line header, the reader takes them
      as the dimensions and max_color, and the file decodes with no pixels. */
  lemma HeaderOnOneLineThenTwo(header: string, dims: string, maxColor: string)
    requires NoNewline(header) && NoNewline(dims) && NoNewline(maxColor)
    requires ParseDimensions(dims).Ok? && ParseUsize(maxColor).Some?
    ensures DecodeText(header + "\n" + dims + "\n" + maxColor + "\n")
         == Ok(Image(header, ParseDimensions(dims).value.0, ParseDimensions(dims).value.1,
                     ParseUsize(maxColor).value, []))
  {
    var contents := header + "\n" + dims + "\n" + maxColor + "\n";
    LinesSingle("");
    LinesCons(maxColor, "");
    assert maxColor + "\n" + "" == maxColor + "\n";
    LinesCons(dims, maxColor + "\n");
    assert dims + "\n" + (maxColor + "\n") == dims + "\n" + maxColor + "\n";
    LinesCons(header, dims + "\n" + maxColor + "\n");
    assert header + "\n" + (dims + "\n" + maxColor + "\n") == contents;
    var raster: seq<string> := [""];
    assert Lines(contents) == [header, dims, maxColor] + raster;
    assert Lines(contents)[3..] == raster;
    assert Tokens("") == [];
    var noLines: seq<string>, noPixels: seq<Pixel> := [], [];
    assert LinePixels("") == Triplets([], 0) == Ok(noPixels);
    LinesPixelsSnoc(noLines, "", noPixels, noPixels);
    assert noLines + [""] == raster && noPixels + noPixels == noPixels;
    assert LinesPixels(Lines(contents)[3..]) == Ok(noPixels);
    assert Lines(contents)[1] == dims && Lines(contents)[2] == maxColor;
  }

  /** max_color is read from the whole of line 2, so a blank after the
      digits makes it malformed. */
  lemma MaxColorBareDigits(s: string)
    ensures ParseUsize(s + " ") == None
  {
    assert !IsDigit((s + " ")[|s|]);
  }

  /** The triplets of one raster line read so far, as the inner loop of
      `new_with_file` pushes them. */
  method ReadTriplets(colors: seq<string>) returns (res: Result<seq<Pixel>>)
    ensures res == Triplets(colors, |colors| / 3)
  {
    var pixels: seq<Pixel> := [];
    var color := 0;
    while color < |colors| / 3
      invariant 0 <= color <= |colors| / 3
      invariant Triplets(colors, color) == Ok(pixels)
    {
      var red := ParseU8(colors[3 * color]);
      var green := ParseU8(colors[3 * color + 1]);
      var blue := ParseU8(colors[3 * color + 2]);
      if red.None? || green.None? || blue.None? {
        TripletsOk(colors, |colors| / 3);
        assert !ParsePixel(colors[3 * color], colors[3 * color + 1], colors[3 * color + 2]).Ok?;
        return Err(InvalidSample);
      }
      pixels := pixels + [Pixel(red.value, green.value, blue.value)];
      color := color + 1;
    }
    return Ok(pixels);
  }

  /** `new_with_file`, the file replaced by its contents: collects the lines,
      then loops over the raster lines and their triplets pushing pixels,
      and builds the image from the header lines. Each `unwrap` or
      out-of-range index that would panic returns an error instead. */
  method NewWithFile(contents: string) returns (res: Result<Image>)
    ensures res == DecodeText(contents)
  {
    var data := Lines(contents);
    if |data| < 3 {
      return Err(MissingHeaderLine);
    }
    var raster := data[3..];
    var pixels: seq<Pixel> := [];
    var k := 0;
    while k < |raster|
      invariant 0 <= k <= |raster|
      invariant LinesPixels(raster[..k]) == Ok(pixels)
    {
      var colors := Tokens(raster[k]);
      var linePixels := ReadTriplets(colors);
      if linePixels.Err? {
        LinesPixelsFail(raster, k);
        return Err(InvalidSample);
      }
      assert raster[..k + 1] == raster[..k] + [raster[k]];
      LinesPixelsSnoc(raster[..k], raster[k], pixels, linePixels.value);
      pixels := pixels + linePixels.value;
      k := k + 1;
    }
    assert raster[..k] == raster;
    var heightWidth := Tokens(data[1]);
    if |heightWidth| < 1 {
      return Err(MalformedHeader);
    }
    var height := ParseUsize(heightWidth[0]);
    if height.None? {
      return Err(MalformedHeader);
    }
    if |heightWidth| < 2 {
      return Err(MalformedHeader);
    }
    var width := ParseUsize(heightWidth[1]);
    if width.None? {
      return Err(MalformedHeader);
    }
    var maxColor := ParseUsize(data[2]);
    if maxColor.None? {
      return Err(MalformedHeader);
    }
    return Ok(Image(data[0], height.value, width.value, maxColor.value, pixels));
  }
}
