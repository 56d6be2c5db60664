# libppm in Dafny

This is a model of `libppm`, a small Rust codec for the Netpbm PPM colour
image format, together with proofs about it. It covers four parts of the
library:

- **The `Pixel` value type** (`pixels.dfy`). It models the three `u8`
  samples, the constructor and accessors, `invert`, `gray_scale`, and
  exact equality.
- **The `Image` aggregate** (`images.dfy`). It models the header fields
  `magic`, `height`, `width` and `max_color`, the row-major pixel buffer,
  the two transforms `invert` and `gray_scale`, and `==`.
  - `==` compares only the first `height*width` pixels.
  - `Image::new` is the datatype constructor. `Image::pixels` is its
    `pixels` field.
- **The text codec.**
  - `Image::save` (`text_encoder.dfy`) writes a three-line header, with
    height before width, and then one `r g b` line per pixel.
  - `new_with_file` (`text_decoder.dfy`) splits the contents on `'\n'`,
    reads the header from lines 0 to 2, and groups the whitespace tokens of
    every later line into triplets.
  - `text_roundtrip.dfy` proves that the reader gives back what the writer
    wrote.
- **The binary reader** (`binary_decoder.dfy`).
  - `read_header` takes the first three lines.
  - `new_with_binary_file` then reads `height*width` groups of three bytes
    into one reused 3-byte buffer. It reads them from the start of the
    file.
  - `binary_roundtrip.dfy` describes the binary layout the reader expects:
    three header lines, then three bytes per pixel. The library has no
    binary writer. The file proves that the corrected reader gives such a
    file back as its image. It also proves that the reader as written does
    not, for a "P6" image whose first pixel is not (80,54,10).

Inputs and outputs are modelled as values:

- a file written by `save` is the `string` written to it;
- a file read in text mode is its contents as a `string`;
- a file read in binary mode is its contents as a `seq<Byte>`.

Every panic in a reader becomes an explicit `Err` of `Wrappers.Result`:
an `unwrap` of a failed parse, or an index beyond the header lines or
tokens. The error values are `MissingHeaderLine`, `MalformedHeader` and
`InvalidSample`.

An index out of range in `save`, `invert` or `gray_scale` is different.
There it is a duty of the caller, and the model states it as the
precondition `HasRaster` (at least `height*width` pixels). `==` takes
any two images. It returns false at the first mismatch, and panics only
when it reaches an index past either buffer first. `Images.Equal` returns
`None` for that panic.

The loops of the source are methods with loops. Each method is proved
equal to a specification function, and the properties are proved about
those functions:

- `Image::invert`, `Image::gray_scale` and `==` become `InvertImage`,
  `GrayScaleImage` and `Equal`.
- The nested loops of `save` become `Save`, `SaveRow` and `SavePixel`.
- The line and triplet loops of `new_with_file` become `NewWithFile` and
  `ReadTriplets`.
- The counting loop of `read_header` becomes `ReadHeader`.
- The pixel loop of `new_with_binary_file` becomes `ReadPixels`. It refills
  an `array<Byte>` of length 3 in place.

`height*width` is spelled `Rows(height, width)`, a sum of rows, and
`Images.RowsIsProduct` ties it to the product.

The code disagrees with the format description at the head of
`ppm/src/lib.rs` in three places. The model follows the code in all of
them:

- The description puts width before height (lib.rs:6-8), and so does the
  doc example of `save` (lib.rs:141). The code writes and reads height
  first (lib.rs:153 and 258-259).
- The description puts the raster after the header (lib.rs:11-12). The
  binary reader reads it from offset 0, header included (lib.rs:296-299).
- The description lets any whitespace separate the magic number, the
  dimensions and Maxval (lib.rs:5, 7, 9 and 11). Both readers instead
  want three `'\n'`-separated lines: the magic number, `"height width"`,
  then max_color (lib.rs:238-260 and 272-279). A header such as
  `"P6 2 1 255\n"` is therefore one header line.
  - A file holding only that line is refused by both readers. In text
    mode, so is that line followed by one raster line:
    `TextDecoder.HeaderOnOneLine` and `BinaryDecoder.BinaryHeaderOnOneLine`.
  - When two more lines follow, the readers take them as the dimensions
    and max_color, and the file is accepted:
    `TextDecoder.HeaderOnOneLineThenTwo` and
    `BinaryDecoder.BinaryHeaderOnOneLineThenTwo`.
  - For example, `"P3 2 1 255\n7 8\n9\n"` reads as a 7x8 text image with
    max_color 9 and no pixels: `TextRoundTrip.HeaderOnOneLineMisread`.
  - Likewise, `"P6 1 2 255\n"` followed by the 2-pixel raster (49,32,49),
    (10,53,10) reads as a 1x1 binary image with max_color 5. Those raster
    bytes are the lines `"1 1"` and `"5"`:
    `BinaryRoundTrip.BinaryHeaderOnOneLineMisread`.
  The text reader also wants max_color as bare digits, with nothing after
  them on line 2: `TextDecoder.MaxColorBareDigits`.

Three more behaviours of the code are easy to miss. The model follows
them too:

- `gray_scale` truncates each channel before adding (lib.rs:72-75), so it
  is not idempotent: `Pixels.GrayScaleNotIdempotent`.
- `save` ends its output with `'\n'` unless the image is 1x1 (lib.rs:158):
  `TextEncoder.EncodedTestImage`.
- A short binary file raises no error. The stale buffer is reused instead
  (lib.rs:297-299): `BinaryDecoder.StaleBuffer` and
  `BinaryDecoder.NothingToRead`.

## Model

| member | source | states |
|---|---|---|
| Pixels.NewThenAccessors | ppm/src/lib.rs:42-56 | `red()`, `green()` and `blue()` return what `Pixel::new` was given |
| Pixels.Invert | ppm/src/lib.rs:60-62 | each channel of the result adds up to 255 with the input's channel, so `255 - c` never underflows |
| Pixels.InvertInvolutive | ppm/src/lib.rs:60-62 | inverting twice gives the pixel back |
| Pixels.InvertChangesEveryChannel | ppm/src/lib.rs:60-62 | 255 is odd, so every channel changes and no pixel is its own inverse |
| Pixels.InvertExample | ppm/tests/sub_test/test_pixel.rs:30-36 | (120,150,200) inverts to (135,105,55) |
| Pixels.GrayScale | ppm/src/lib.rs:72-75 | all three channels equal `r/3 + g/3 + b/3`, which stays within 2 below the truncated mean and so never overflows a byte |
| Pixels.GrayScaleExample | ppm/tests/sub_test/test_pixel.rs:38-45 | (120,150,200) becomes (156,156,156) |
| Pixels.GrayScaleFixedPoint | ppm/src/lib.rs:72-75 | gray_scale leaves a pixel unchanged iff it is gray with a level divisible by 3 |
| Pixels.GrayScaleNotIdempotent | ppm/src/lib.rs:72-75 | (1,1,3) goes to (1,1,1), and that goes to (0,0,0) |
| Pixels.Equals | ppm/src/lib.rs:89-97 | `==` on pixels, like the identical inherent `eq` at lines 64-70, holds iff all three channels agree |
| Numeric.DecDigits | ppm/src/lib.rs:153 | `{}` formatting gives at least one digit, no sign, and no leading zero except for 0 |
| Numeric.ValueOfDec | ppm/src/lib.rs:153 | the digits written denote the number formatted |
| Numeric.ParseU8 | ppm/src/lib.rs:246-248 | `parse::<u8>` succeeds iff the text is a non-empty digit string whose value is below 256, gives that value, and on a canonical numeral (no leading zero) is the inverse of `{}` formatting |
| Numeric.ParseUsize | ppm/src/lib.rs:258-260 | `parse::<usize>` succeeds iff the text is a non-empty digit string whose value is below 2^64, gives that value, and on a canonical numeral is the inverse of `{}` formatting |
| Numeric.ParseU8OfDec | ppm/src/lib.rs:300-302 | `b.to_string().parse::<u8>()` is `b` for every byte |
| Numeric.ParseUsizeOfDec | ppm/src/lib.rs:258-260 | `n.to_string().parse::<usize>()` is `n` for every usize |
| Numeric.DecOfValue | ppm/src/lib.rs:246-248 | a canonical digit string is the `{}` formatting of the value it denotes |
| Text.Lines | ppm/src/lib.rs:238-240 | `split("\n")` gives at least one piece and no piece holds `'\n'` |
| Text.LinesCons | ppm/src/lib.rs:238 | a piece free of `'\n'` followed by `'\n'` is split off whole |
| Text.LinesSingle | ppm/src/lib.rs:238 | a text free of `'\n'` is one piece |
| Text.JoinLinesOfLines | ppm/src/lib.rs:238-240 | joining the pieces with `'\n'` gives the contents back, so the split loses nothing |
| Text.Tokens | ppm/src/lib.rs:244 | `split_whitespace` gives non-empty tokens without whitespace, and none for the empty text |
| Text.TokensCons | ppm/src/lib.rs:244 | a word followed by any whitespace character is one token, and the rest follows |
| Text.TokensSkip | ppm/src/lib.rs:244 | whitespace before the text adds no token, so with `TokensCons`, `TokensSingle` and the empty case the tokens of every text are fixed |
| Text.TokensSingle | ppm/src/lib.rs:254 | a word alone is one token |
| Text.DecIsWord | ppm/src/lib.rs:153 | a formatted number holds neither whitespace nor `'\n'` |
| Images.RowsIsProduct | ppm/src/lib.rs:174 | the row-by-row count of pixels equals `height*width` |
| Images.RowInRaster | ppm/src/lib.rs:155-157 | every row of the raster lies inside the first `height*width` pixels |
| Images.Inverted | ppm/src/lib.rs:172-187 | the inverted image has the same magic, dimensions and max_color, exactly `height*width` pixels, and pixel i is the inverse of input pixel i |
| Images.InvertImage | ppm/src/lib.rs:172-187 | the push loop builds exactly `Inverted(im)` |
| Images.GrayScaled | ppm/src/lib.rs:189-203 | the gray image has the same header, exactly `height*width` pixels, and pixel i is the gray level of input pixel i |
| Images.GrayScaleImage | ppm/src/lib.rs:189-203 | the push loop builds exactly `GrayScaled(im)` |
| Images.Equal | ppm/src/lib.rs:215-224 | on every pair of images: false iff the buffers differ at some index below `self.height*self.width` that both hold; otherwise true iff both hold that many pixels, and a panic (`None`) iff one does not; where both hold them, true iff those pixels agree (`SameRaster`); magic, max_color, other's dimensions and extra pixels play no part |
| Images.InvertedTwice | ppm/src/lib.rs:172-187 | inverting an image twice restores its header and its first `height*width` pixels, and the result is `==` to it |
| Images.InvertedDiffers | ppm/tests/sub_test/test_image.rs:5-15 | an image with at least one pixel is never `==` to its inverse |
| Images.GrayScaledSameIff | ppm/src/lib.rs:189-224 | an image is `==` to its gray version iff every pixel is gray with a level divisible by 3 |
| Images.TestImage | ppm/tests/sub_test/test_image.rs:7-12 | the tests' 2x1 image holds its two announced pixels |
| Images.GrayScaledDiffersOnTestImage | ppm/tests/sub_test/test_image.rs:18-28 | the test image is not `==` to its gray version |
| TextEncoder.RowMajorInRange | ppm/src/lib.rs:157 | the index `h*width + w` stays below `height*width` |
| TextEncoder.LastPixelTestOnlyOneByOne | ppm/src/lib.rs:158 | inside the loops, `h*w == height*width - 1` holds iff the image is 1x1 |
| TextEncoder.LastRowMajorIndex | ppm/src/lib.rs:157-158 | `h*width + w` is the last index iff h and w are the last row and column |
| TextEncoder.SaveIndex | ppm/src/lib.rs:157-158 | the pixel read at (h, w) is the next one in row-major order, and the last-pixel test is the 1x1 test |
| TextEncoder.WrittenAfterStep | ppm/src/lib.rs:158-165 | each pixel adds its line, and the line lacks `'\n'` only in a 1x1 image |
| TextEncoder.WrittenAfterIsPrefix | ppm/src/lib.rs:151-169 | after k pixels, the text written is the header and the first k pixel lines, each closed by `'\n'` except the last line of a 1x1 image |
| TextEncoder.WrittenAfterEnds | ppm/src/lib.rs:151-169 | the text starts as the header and ends as the full encoding |
| TextEncoder.SavePixel | ppm/src/lib.rs:157-165 | the inner loop body appends exactly the next pixel's line |
| TextEncoder.SaveRow | ppm/src/lib.rs:156-166 | the inner loop appends the lines of row h |
| TextEncoder.Save | ppm/src/lib.rs:151-169 | `save` writes the header (magic, height before width, max_color) and then the first `height*width` pixels, one line each in row-major order, with the final `'\n'` dropped only for a 1x1 image |
| TextEncoder.EncodedEnding | ppm/src/lib.rs:158-165 | the output ends in `'\n'` iff the image is not 1x1 |
| TextEncoder.EncodedTestImage | ppm/tests/sub_test/test_image.rs:31-40 | the test image is saved as `"P3\n2 1\n255\n120 30 180\n120 3 180\n"` |
| TextEncoder.SaveIntendedIndex | ppm/src/lib.rs:157-158 | with the corrected test, the pixel at (h, w) is the last one iff h and w are the last row and column |
| TextEncoder.WrittenIntendedAfterStep | ppm/src/lib.rs:158-165 | corrected: only the last pixel's line lacks `'\n'` |
| TextEncoder.WrittenIntendedAfterIsPrefix | ppm/src/lib.rs:151-169 | corrected: after k pixels, the text is the header and k lines, and only the very last line is left open |
| TextEncoder.WrittenIntendedAfterEnds | ppm/src/lib.rs:151-169 | corrected: the text starts as the header and ends as the intended encoding |
| TextEncoder.SaveIntendedPixel | ppm/src/lib.rs:157-165 | corrected inner loop body |
| TextEncoder.SaveIntendedRow | ppm/src/lib.rs:156-166 | corrected inner loop |
| TextEncoder.SaveIntended | ppm/src/lib.rs:151-169 | the corrected `save` writes no `'\n'` after the last pixel of any image |
| TextEncoder.EncodedIntendedEnding | ppm/src/lib.rs:158-165 | corrected: the output ends in `'\n'` iff there is no pixel to write |
| TextEncoder.EncodedIntendedTestImage | ppm/tests/sub_test/test_image.rs:31-40 | corrected: the test image is saved as `"P3\n2 1\n255\n120 30 180\n120 3 180"` |
| TextDecoder.ParsePixel | ppm/src/lib.rs:246-249 | a triplet gives a pixel iff all three tokens parse as `u8`, and a failure is `InvalidSample` |
| TextDecoder.Triplets | ppm/src/lib.rs:245-251 | the first `count` triplets give `count` pixels or fail with `InvalidSample` |
| TextDecoder.TripletsOk | ppm/src/lib.rs:245-251 | the triplets decode iff each one does |
| TextDecoder.TripletsAt | ppm/src/lib.rs:245-251 | pixel i of decoded triplets comes from tokens 3i, 3i+1 and 3i+2 |
| TextDecoder.ReadTriplets | ppm/src/lib.rs:244-251 | the inner loop yields `floor(tokens/3)` pixels in order and drops leftover tokens; a bad token gives `InvalidSample` |
| TextDecoder.LinesPixels | ppm/src/lib.rs:243-252 | a failure while reading the raster lines is `InvalidSample` |
| TextDecoder.LinesPixelsOk | ppm/src/lib.rs:243-252 | the raster decodes iff every raster line does |
| TextDecoder.LinesPixelsCount | ppm/src/lib.rs:243-252 | the raster gives the sum over its lines of `floor(tokens/3)` pixels, with no carry between lines |
| TextDecoder.LinesPixelsSnoc | ppm/src/lib.rs:243-252 | a decoded line appended to decoded raster lines appends its pixels |
| TextDecoder.LinesPixelsFail | ppm/src/lib.rs:246-248 | one bad raster line fails the whole read |
| TextDecoder.ParseDimensions | ppm/src/lib.rs:254-259 | line 1 gives (height, width) iff it has two tokens that parse as usize, height first; otherwise `MalformedHeader` |
| TextDecoder.DecodeText | ppm/src/lib.rs:233-263 | it fails with `MissingHeaderLine` iff there are fewer than 3 lines; a bad raster line gives `InvalidSample`; with a good raster, bad dimensions or max_color give `MalformedHeader`; otherwise it succeeds, with magic line 0, the pixels of lines 3 onward, dimensions from line 1 and max_color from line 2 parsed whole |
| TextDecoder.HeaderOnOneLine | ppm/src/lib.rs:238-260 | a file that consists of a header written on one line, as lib.rs:3-11 allows, gives `MissingHeaderLine`, and that line followed by one raster line gives `MalformedHeader` |
| TextDecoder.HeaderOnOneLineThenTwo | ppm/src/lib.rs:238-260 | when two more lines follow a one-line header, they are taken as the dimensions and max_color: if they parse, the file decodes with the one-line header as magic and no pixels |
| TextDecoder.MaxColorBareDigits | ppm/src/lib.rs:260 | max_color is line 2 parsed whole, so a blank after its digits makes it fail to parse |
| TextDecoder.NewWithFile | ppm/src/lib.rs:233-263 | the line and triplet loops compute exactly `DecodeText` |
| TextRoundTrip.PixelTextNoNewline | ppm/src/lib.rs:159 | a pixel line holds no `'\n'` |
| TextRoundTrip.HeaderLines | ppm/src/lib.rs:153 | the header written splits back into magic, the dimensions line and max_color |
| TextRoundTrip.ClosedLines | ppm/src/lib.rs:163 | `'\n'`-closed pixel lines split into one piece per pixel |
| TextRoundTrip.BodyLines | ppm/src/lib.rs:155-167 | the pixel text splits into one piece per pixel, plus a final empty piece when it ends in `'\n'` |
| TextRoundTrip.PixelLineDecodes | ppm/src/lib.rs:244-251 | a written pixel line reads back as that pixel |
| TextRoundTrip.EmptyLineDecodes | ppm/src/lib.rs:244-245 | an empty line contributes no pixel |
| TextRoundTrip.PixelLinesDecode | ppm/src/lib.rs:243-252 | written pixel lines read back as the pixels, in order |
| TextRoundTrip.BodyDecodes | ppm/src/lib.rs:243-252 | the raster text reads back as its pixels, with or without a final `'\n'` |
| TextRoundTrip.DimensionsDecode | ppm/src/lib.rs:254-259 | the written `height width` line reads back as (height, width) |
| TextRoundTrip.DecodesHeaderAndBody | ppm/src/lib.rs:233-263 | any header followed by any pixel text reads back as that header and those pixels |
| TextRoundTrip.SaveThenLoad | ppm/src/lib.rs:151-169 | reading what `save` wrote gives the same magic (free of `'\n'`), dimensions and max_color, and exactly the first `height*width` pixels |
| TextRoundTrip.SaveIntendedThenLoad | ppm/src/lib.rs:151-169 | the same holds for the corrected `save` |
| TextRoundTrip.SaveThenLoadSame | ppm/tests/sub_test/test_image.rs:31-43 | an image with exactly `height*width` pixels reads back identical, and so `==` |
| TextRoundTrip.SaveAndLoadTestImage | ppm/tests/sub_test/test_image.rs:31-43 | the save-and-load test image reads back identical and `==` |
| TextRoundTrip.HeaderOnOneLineMisread | ppm/src/lib.rs:238-260 | `"P3 2 1 255\n7 8\n9\n"`, whose header is on one line, reads as a 7x8 image with magic `"P3 2 1 255"`, max_color 9 and no pixels |
| BinaryDecoder.LineEnd | ppm/src/lib.rs:272 | the line ends at a `'\n'` at or after its start, or at the end of the file |
| BinaryDecoder.LineEndFirst | ppm/src/lib.rs:272 | no `'\n'` comes before that end, so the line ends at the FIRST `'\n'` |
| BinaryDecoder.AsciiTextOk | ppm/src/lib.rs:273-275 | a line is readable iff all its bytes are ASCII, and then its characters are those bytes |
| BinaryDecoder.AsciiTextOfBytes | ppm/src/lib.rs:273-275 | the bytes of ASCII text read back as that text |
| BinaryDecoder.NextLine | ppm/src/lib.rs:272 | `lines()` yields nothing iff the file is used up, and every item moves forward |
| BinaryDecoder.NextLineOf | ppm/src/lib.rs:272-274 | an ASCII line closed by `'\n'` is one item: its text with a final `'\r'` dropped, and the next item starts after the `'\n'` |
| BinaryDecoder.LastLineOf | ppm/src/lib.rs:272-274 | a last ASCII line without `'\n'` is one item as it stands, `'\r'` included, and ends the file |
| BinaryDecoder.LineAtConcat | ppm/src/lib.rs:272 | a line's bytes and its `'\n'` placed after any bytes sit at the position where those bytes end |
| BinaryDecoder.LineAfter | ppm/src/lib.rs:272-274 | a plain line closed by `'\n'` after any bytes is the next item where those bytes end |
| BinaryDecoder.HeaderLength | ppm/src/lib.rs:266-282 | the header gains at most one line per item taken |
| BinaryDecoder.Header | ppm/src/lib.rs:266-282 | `read_header` returns at most 3 lines |
| BinaryDecoder.HeaderEnd | ppm/src/lib.rs:272-279 | the header ends inside the contents |
| BinaryDecoder.HeaderStep | ppm/src/lib.rs:273-276 | a readable line is kept and an unreadable one is only counted |
| BinaryDecoder.HeaderEndStep | ppm/src/lib.rs:272-279 | each item taken moves the end of the header to where the next item starts |
| BinaryDecoder.HeaderDone | ppm/src/lib.rs:277-279 | once three items are taken or the file is used up, the lines kept are the header |
| BinaryDecoder.ReadHeader | ppm/src/lib.rs:266-282 | the counting loop with its break after the third item returns exactly `Header` |
| BinaryDecoder.LinesAtBytes | ppm/src/lib.rs:272-274 | the bytes of plain lines, each closed by `'\n'`, are read back by `lines()` as those lines, whatever precedes or follows them |
| BinaryDecoder.LinesBytesSplit | ppm/src/lib.rs:272 | the bytes of lines begin with the first line's bytes and its `'\n'` |
| BinaryDecoder.LinesBytesLength | ppm/src/lib.rs:272 | the bytes of lines are as long as the lines plus one `'\n'` each |
| BinaryDecoder.LinesLengthThree | ppm/src/lib.rs:272-279 | three header lines take their lengths plus one `'\n'` each |
| BinaryDecoder.HeaderFromLines | ppm/src/lib.rs:266-282 | `read_header` keeps such lines whole and in order |
| BinaryDecoder.HeaderEndLines | ppm/src/lib.rs:266-282 | and the contents go on right after the last of them |
| BinaryDecoder.LinesBytesThree | ppm/src/lib.rs:272 | the bytes of three header lines are each line's ASCII bytes followed by `'\n'` |
| BinaryDecoder.HeaderOfLines | ppm/src/lib.rs:266-282 | a file starting with three plain lines, each closed by `'\n'`, has exactly those lines as header, and the header ends after `|l0|+|l1|+|l2|+3` bytes |
| BinaryDecoder.Refill | ppm/src/lib.rs:299 | the buffer keeps its three bytes |
| BinaryDecoder.Read | ppm/src/lib.rs:299 | `read` on a regular file takes `min(3, bytes left)` bytes over the front of the buffer and leaves the rest stale |
| BinaryDecoder.ReadPos | ppm/src/lib.rs:298-299 | the file position stays inside the contents |
| BinaryDecoder.BufferAfter | ppm/src/lib.rs:297-299 | the buffer, initially 8, 8, 8, always holds three bytes |
| BinaryDecoder.PixelsFrom | ppm/src/lib.rs:298-305 | `count` rounds give `count` pixels |
| BinaryDecoder.ReadPixels | ppm/src/lib.rs:295-305 | the loop that refills the 3-byte array in place yields exactly `PixelsFrom` |
| BinaryDecoder.BufferAfterInRange | ppm/src/lib.rs:297-299 | while three bytes remain, read k fills the buffer with the next three bytes |
| BinaryDecoder.PixelsFromInRange | ppm/src/lib.rs:298-305 | given enough bytes, pixel i is the bytes at 3i, 3i+1 and 3i+2 after the start |
| BinaryDecoder.PixelsFromAt | ppm/src/lib.rs:298-305 | pixel i is the buffer after read i+1 |
| BinaryDecoder.StaleBuffer | ppm/src/lib.rs:297-299 | once the file is used up, every further pixel repeats the previous one |
| BinaryDecoder.BufferEmptyFile | ppm/src/lib.rs:297 | with nothing to read, the buffer keeps its initial 8, 8, 8 |
| BinaryDecoder.NothingToRead | ppm/src/lib.rs:297-305 | with nothing to read, every pixel is (8,8,8) |
| BinaryDecoder.DecodeBinary | ppm/src/lib.rs:289-308 | it succeeds iff there are 3 header lines, line 1 gives the dimensions and line 2 parses as usize; then magic is line 0, (height, width) come from line 1 and max_color from line 2; fewer than 2 lines, or a missing line 2 after good dimensions, give `MissingHeaderLine`, bad dimensions or max_color give `MalformedHeader`; the image has exactly `height*width` pixels, read from offset 0 |
| BinaryDecoder.BinaryHeaderOnOneLine | ppm/src/lib.rs:272-279 | a binary file that consists of one header line, as lib.rs:3-11 allows, is refused with `MissingHeaderLine` |
| BinaryDecoder.BinaryHeaderOnOneLineThenTwo | ppm/src/lib.rs:272-279 | when two more plain lines follow a one-line header, `read_header` takes them as lines 1 and 2: if they parse, the file is accepted, with the one-line header as magic and the dimensions and max_color those two lines give |
| BinaryDecoder.NewWithBinaryFile | ppm/src/lib.rs:289-308 | the method computes exactly `DecodeBinary`, with the same order of failures (missing line 1, bad dimensions, missing line 2, bad max_color) |
| BinaryDecoder.DecodeBinaryPixels | ppm/src/lib.rs:295-305 | given `3*height*width` bytes, pixel i is bytes 3i, 3i+1 and 3i+2 of the file; the `to_string().parse()` step is the identity |
| BinaryDecoder.BinaryReadsHeaderAsPixel | ppm/src/lib.rs:296-299 | a file starting with `"P6\n"` gets (80,54,10) as its first pixel |
| BinaryDecoder.DecodeBinaryIntended | ppm/src/lib.rs:289-308 | corrected: the same header fields and failures, and exactly `height*width` pixels, read from where the header ends |
| BinaryDecoder.NewWithBinaryFileIntended | ppm/src/lib.rs:289-308 | the corrected method computes exactly `DecodeBinaryIntended` |
| BinaryDecoder.DecodeBinaryIntendedPixels | ppm/src/lib.rs:295-305 | corrected: given enough bytes, pixel i is the three bytes at 3i after the header |
| BinaryRoundTrip.RasterAt | ppm/src/lib.rs:11-12 | pixel i of a raster is the bytes 3i, 3i+1 and 3i+2 |
| BinaryRoundTrip.DecPlain | ppm/src/lib.rs:153 | a formatted number is a plain header line |
| BinaryRoundTrip.DimensionsPlain | ppm/src/lib.rs:153 | so is the `height width` line |
| BinaryRoundTrip.HeaderLinesOf | ppm/src/lib.rs:153 | the header lines of an image are three plain lines |
| BinaryRoundTrip.BinaryFileHeader | ppm/src/lib.rs:289-293 | in a binary file, `read_header` finds the image's header lines, which read as its magic, (height, width) and max_color, and the raster starts right after them |
| BinaryRoundTrip.BinaryFileDecodes | ppm/src/lib.rs:289-308 | corrected: reading a binary file gives back the image it was made of, cut to its first `height*width` pixels |
| BinaryRoundTrip.P6Prefix | ppm/src/lib.rs:4 | a binary file with magic `P6` begins with the bytes 80, 54, 10 |
| BinaryRoundTrip.BinaryFileAsWritten | ppm/src/lib.rs:296-299 | as written, the reader accepts such a file, but a `P6` file whose first pixel is not (80,54,10) does not read back as its image |
| BinaryRoundTrip.MisreadBytes | ppm/src/lib.rs:272-279 | the lines `"P6 1 2 255"`, `"1 1"` and `"5"`, each closed by `'\n'`, are the one-line header followed by the bytes 49, 32, 49, 10, 53, 10 |
| BinaryRoundTrip.MisreadFileLines | ppm/src/lib.rs:272-279 | the one-line header followed by the raster (49,32,49), (10,53,10) is exactly those three lines |
| BinaryRoundTrip.BinaryHeaderOnOneLineMisread | ppm/src/lib.rs:272-308 | that file is accepted as a 1x1 image with magic `"P6 1 2 255"` and max_color 5 |

## Left out

- `read_ppm`, `write_ppm` and `mod ffi` (ppm/src/lib.rs:314-324) are unsafe calls into foreign code that is not part of this model.
- File system effects are left out: `File::create`, `File::open`, `fs::read_to_string`, and the `expect` messages of those calls. `save` produces the text it would write. The readers take the file contents. The `std::io::Result` of `save` is always `Ok`, so the model does not return it.
- Failed writes in `save` and I/O errors of `read` are left out.
- Console output is left out: the `println!` at ppm/src/lib.rs:303 and the hexadecimal `Display` of pixels (ppm/src/lib.rs:80-84).
- `use_ppm_library/src/main.rs` is a driver that only does file I/O on sample paths, so it is not modelled.
- Text.Tokens: only ASCII whitespace separates tokens. Rust's `split_whitespace` also splits on Unicode whitespace.
- Numeric.ParseU8: does not model Rust's acceptance of a leading `'+'`.
- Numeric.ParseUsize: does not model Rust's acceptance of a leading `'+'`.
- BinaryDecoder.AsciiTextOk: a header line is readable only when it is ASCII. `BufReader::lines` also accepts multi-byte UTF-8 and rejects only invalid UTF-8.
- BinaryDecoder.NextLine: what `BufReader` buffers ahead is not modelled. The second file handle reads from offset 0 either way.
- BinaryDecoder.Read: a regular file is assumed. `read` takes `min(3, bytes left)` bytes. A short read on other files is not modelled.
- BinaryDecoder.NewWithBinaryFile: the product `h*w` is unbounded. Rust's `usize` multiplication would panic or wrap beyond 2^64.
- The same holds for `height*width` and `h*width + w` in TextEncoder.Save, Images.InvertImage, Images.GrayScaleImage and Images.Equal.
- Two-byte samples for a max_color of 256 or more are described in the module comment but not implemented, and not modelled. max_color is never range-checked, and the pixel count is never checked against `height*width` on a text load. Both are modelled as the code has them.
- TextDecoder.ParseDimensions: the separate `unwrap` panics on line 1 all become `MalformedHeader`. These are a missing token, a bad height and a bad width. `NewWithFile` keeps the source's order of checks.
- TextDecoder.Triplets: its own contract gives only the length and the error. When it succeeds is stated in TextDecoder.TripletsOk, and which pixels it yields in TextDecoder.TripletsAt.

## Findings

| source | as written | input that shows it | evidently intended | confidence | as-written member | corrected member |
|---|---|---|---|---|---|---|
| ppm/src/lib.rs:158 | the last-pixel test is `h*w == self.height*self.width-1`, which only a 1x1 image passes | the 2x1 test image (120,30,180), (120,3,180) is saved as `"P3\n2 1\n255\n120 30 180\n120 3 180\n"`, with a `'\n'` after the last pixel | the test is `h == height-1 && w == width-1`, so that no `'\n'` follows the last pixel of any image | medium, not executed | TextEncoder.EncodedEnding | TextEncoder.EncodedIntendedEnding |
| ppm/src/lib.rs:296-299 | the pixels are read from a freshly opened file, that is from offset 0, header included | the file `"P6\n1 1\n255\n"` followed by bytes 1, 2, 3 gives the pixel (80,54,10) instead of (1,2,3) | the raster is read from where the three header lines end | high, not executed | BinaryRoundTrip.BinaryFileAsWritten | BinaryRoundTrip.BinaryFileDecodes |
