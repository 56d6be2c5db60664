/** The binary reader: `read_header` takes the first three lines of the
    file, then `new_with_binary_file` reopens the file and reads height *
    width groups of three bytes into one reused 3-byte buffer. The file is
    replaced by its contents as a byte sequence. */
module BinaryDecoder {
  import opened Wrappers
  import opened Numeric
  import opened Text
  import opened Pixels
  import opened Images
  import opened TextDecoder

  const NewlineByte: Byte := 10
  const ReturnByte: Byte := 13

  /** The first '\n' at or after `pos`, or the end of the contents. */
  function LineEnd(bytes: seq<Byte>, pos: nat): (e: nat)
    requires pos <= |bytes|
    ensures pos <= e <= |bytes|
    ensures e < |bytes| ==> bytes[e] == NewlineByte
    decreases |bytes| - pos
  {
    if pos == |bytes| || bytes[pos] == NewlineByte then pos else LineEnd(bytes, pos + 1)
  }

  /** No '\n' comes before the end of the line, so it is the first one. */
  lemma {:induction false} LineEndFirst(bytes: seq<Byte>, pos: nat)
    requires pos <= |bytes|
    ensures forall i :: pos <= i < LineEnd(bytes, pos) ==> bytes[i] != NewlineByte
    decreases |bytes| - pos
  {
    if pos < |bytes| && bytes[pos] != NewlineByte {
      LineEndFirst(bytes, pos + 1);
    }
  }

  /** Bytes as text: ASCII only; any other byte makes the line unreadable. */
  function AsciiText(bs: seq<Byte>): Option<string>
  {
    if |bs| == 0 then Some("")
    else
      match AsciiText(bs[..|bs| - 1])
      case None => None
      case Some(t) => if bs[|bs| - 1] < 128 then Some(t + [bs[|bs| - 1] as char]) else None
  }

  /** A line is readable exactly when all its bytes are ASCII, and then
      its text is those bytes as characters. */
  lemma {:induction false} AsciiTextOk(bs: seq<Byte>)
    ensures AsciiText(bs).Some? <==> forall i :: 0 <= i < |bs| ==> bs[i] < 128
    ensures AsciiText(bs).Some? ==>
      |AsciiText(bs).value| == |bs| && forall i :: 0 <= i < |bs| ==> AsciiText(bs).value[i] as int == bs[i]
  {
    if |bs| > 0 {
      var init := bs[..|bs| - 1];
      AsciiTextOk(init);
      assert forall i :: 0 <= i < |init| ==> init[i] == bs[i];
    }
  }

  /** Text whose characters are all ASCII. */
  predicate IsAscii(s: string)
  {
    forall i :: 0 <= i < |s| ==> s[i] as int < 128
  }

  /** The bytes of ASCII text, one per character. */
  function AsciiBytes(s: string): (bs: seq<Byte>)
    requires IsAscii(s)
    ensures |bs| == |s|
  {
    seq(|s|, i requires 0 <= i < |s| => s[i] as int)
  }

  /** Byte i of ASCII text is the code of its character i. */
  lemma AsciiBytesAt(s: string)
    requires IsAscii(s)
    ensures forall i :: 0 <= i < |s| ==> AsciiBytes(s)[i] == s[i] as int
  {
  }

  /** ASCII text read back from its bytes is that text. */
  lemma AsciiTextOfBytes(s: string)
    requires IsAscii(s)
    ensures AsciiText(AsciiBytes(s)) == Some(s)
  {
    var bs := AsciiBytes(s);
    AsciiBytesAt(s);
    AsciiTextOk(bs);
    var t := AsciiText(bs).value;
    forall i | 0 <= i < |s|
      ensures t[i] == s[i]
    {
      assert t[i] as int == bs[i] == s[i] as int;
    }
    assert t == s;
  }

  /** One item of `BufReader::lines`: the line's text, or None when it does
      not decode, and where the next line starts. */
  datatype LineItem = LineItem(text: Option<string>, next: nat)

  /** The next item of `lines()` from `pos`: none at the end of the
      contents; otherwise the bytes up to the next '\n', which is consumed
      and dropped together with a '\r' just before it. */
  function NextLine(bytes: seq<Byte>, pos: nat): (r: Option<LineItem>)
    requires pos <= |bytes|
    ensures r.None? <==> pos == |bytes|
    ensures r.Some? ==> pos < r.value.next <= |bytes|
  {
    if pos == |bytes| then None
    else
      var e := LineEnd(bytes, pos);
      var raw := bytes[pos..e];
      if e < |bytes| then
        var content := if |raw| > 0 && raw[|raw| - 1] == ReturnByte then raw[..|raw| - 1] else raw;
        Some(LineItem(AsciiText(content), e + 1))
      else Some(LineItem(AsciiText(raw), e))
  }

  /** A header line as written by hand or by `save`: ASCII, free of '\n',
      and not ending in '\r'. */
  predicate PlainLine(line: string)
  {
    IsAscii(line) && NoNewline(line) && (|line| == 0 || line[|line| - 1] != '\r')
  }

  /** The bytes of `line` at `pos`, followed by '\n'. */
  predicate LineAt(bytes: seq<Byte>, pos: nat, line: string)
  {
    IsAscii(line) && pos + |line| < |bytes| && bytes[pos..pos + |line|] == AsciiBytes(line)
    && bytes[pos + |line|] == NewlineByte
  }

  /** A line between the bytes before it and the bytes after its '\n'
      sits right after the bytes before it. */
  lemma LineAtConcat(before: seq<Byte>, line: string, after: seq<Byte>)
    requires IsAscii(line)
    ensures LineAt(before + AsciiBytes(line) + [NewlineByte] + after, |before|, line)
  {
  }

  /** An ASCII line followed by '\n' is one item of `lines()`: its text
      without a final '\r', and the next line starts after the '\n'. */
  lemma NextLineOf(bytes: seq<Byte>, pos: nat, line: string)
    requires NoNewline(line) && LineAt(bytes, pos, line)
    ensures |line| > 0 && line[|line| - 1] == '\r' ==>
      NextLine(bytes, pos) == Some(LineItem(Some(line[..|line| - 1]), pos + |line| + 1))
    ensures PlainLine(line) ==> NextLine(bytes, pos) == Some(LineItem(Some(line), pos + |line| + 1))
  {
    var e := pos + |line|;
    AsciiBytesAt(line);
    LineEndFirst(bytes, pos);
    forall i | pos <= i < e
      ensures bytes[i] != NewlineByte
    {
      assert bytes[i] == bytes[pos..e][i - pos];
    }
    assert LineEnd(bytes, pos) == e;
    var raw := bytes[pos..e];
    if |line| > 0 && line[|line| - 1] == '\r' {
      var text := line[..|line| - 1];
      assert raw[..|raw| - 1] == AsciiBytes(text);
      AsciiTextOfBytes(text);
    } else {
      assert |raw| > 0 ==> raw[|raw| - 1] != ReturnByte;
      AsciiTextOfBytes(line);
    }
  }

  /** A last line without '\n' is one item as it stands, '\r' and all. */
  lemma LastLineOf(bytes: seq<Byte>, pos: nat, line: string)
    requires IsAscii(line) && NoNewline(line) && |line| >= 1
    requires pos + |line| == |bytes| && bytes[pos..] == AsciiBytes(line)
    ensures NextLine(bytes, pos) == Some(LineItem(Some(line), |bytes|))
  {
    AsciiBytesAt(line);
    LineEndFirst(bytes, pos);
    forall i | pos <= i < |bytes|
      ensures bytes[i] != NewlineByte
    {
      assert bytes[i] == bytes[pos..][i - pos];
    }
    assert LineEnd(bytes, pos) == |bytes|;
    assert bytes[pos..|bytes|] == AsciiBytes(line);
    AsciiTextOfBytes(line);
  }

  /** The lines `read_header` returns when it has kept `head` so far and
      may take `left` more items from `pos`: the readable ones, in order. */
  function HeaderFrom(bytes: seq<Byte>, pos: nat, left: nat, head: seq<string>): seq<string>
    requires pos <= |bytes|
    decreases left
  {
    if left == 0 then head
    else
      match NextLine(bytes, pos)
      case None => head
      case Some(item) =>
        HeaderFrom(bytes, item.next, left - 1, if item.text.Some? then head + [item.text.value] else head)
  }

  /** The lines `read_header` returns: the readable ones among the first three. */
  function Header(bytes: seq<Byte>): (head: seq<string>)
    ensures |head| <= 3
  {
    HeaderLength(bytes, 0, 3, []);
    HeaderFrom(bytes, 0, 3, [])
  }

  lemma {:induction false} HeaderLength(bytes: seq<Byte>, pos: nat, left: nat, head: seq<string>)
    requires pos <= |bytes|
    ensures |HeaderFrom(bytes, pos, left, head)| <= |head| + left
    decreases left
  {
    if left > 0 && pos < |bytes| {
      var item := NextLine(bytes, pos).value;
      HeaderLength(bytes, item.next, left - 1, if item.text.Some? then head + [item.text.value] else head);
    }
  }

  /** Where the contents continue after those `left` items. */
  function HeaderEnd(bytes: seq<Byte>, pos: nat, left: nat): (end: nat)
    requires pos <= |bytes|
    ensures pos <= end <= |bytes|
    decreases left
  {
    if left == 0 then pos
    else
      match NextLine(bytes, pos)
      case None => pos
      case Some(item) => HeaderEnd(bytes, item.next, left - 1)
  }

  /** One item further: a readable line is kept, an unreadable one only counted. */
  lemma HeaderStep(bytes: seq<Byte>, pos: nat, left: nat, head: seq<string>, item: LineItem)
    requires pos <= |bytes| && left > 0 && NextLine(bytes, pos) == Some(item)
    ensures item.text.Some? ==>
      HeaderFrom(bytes, pos, left, head) == HeaderFrom(bytes, item.next, left - 1, head + [item.text.value])
    ensures item.text.None? ==>
      HeaderFrom(bytes, pos, left, head) == HeaderFrom(bytes, item.next, left - 1, head)
  {
  }

  /** One item further, the header ends where it would from the next item. */
  lemma HeaderEndStep(bytes: seq<Byte>, pos: nat, left: nat, item: LineItem)
    requires pos <= |bytes| && left > 0 && NextLine(bytes, pos) == Some(item)
    ensures HeaderEnd(bytes, pos, left) == HeaderEnd(bytes, item.next, left - 1)
  {
  }

  /** With no item left to take, or none left in the contents, the lines
      kept so far are the header. */
  lemma HeaderDone(bytes: seq<Byte>, pos: nat, left: nat, head: seq<string>)
    requires pos <= |bytes| && (left == 0 || pos == |bytes|)
    ensures HeaderFrom(bytes, pos, left, head) == head
  {
  }

  /** `read_header`: walks the lines, keeping the readable ones, counting
      every one, and stops after the third. */
  method ReadHeader(bytes: seq<Byte>) returns (head: seq<string>)
    ensures head == Header(bytes)
  {
    var pos: nat := 0;
    var index: nat := 0;
    ghost var left: nat := 3;  // items `read_header` may still take
    head := [];
    while true
      invariant index <= 2 && left == 3 - index && pos <= |bytes|
      invariant HeaderFrom(bytes, pos, left, head) == Header(bytes)
      decreases left
    {
      var line := NextLine(bytes, pos);
      if line.None? {
        HeaderDone(bytes, pos, left, head);
        break;
      }
      var item := line.value;
      HeaderStep(bytes, pos, left, head, item);
      if item.text.Some? {
        head := head + [item.text.value];
      }
      pos := item.next;
      index := index + 1;
      left := left - 1;
      if index > 2 {
        HeaderDone(bytes, pos, left, head);
        break;
      }
    }
  }

  /** The next items of `lines()` from `pos` are `lines`, each read
      whole and each followed by a '\n'. */
  predicate LinesAt(bytes: seq<Byte>, pos: nat, lines: seq<string>)
    decreases |lines|
  {
    |lines| == 0 ||
    (pos <= |bytes| && NextLine(bytes, pos) == Some(LineItem(Some(lines[0]), pos + |lines[0]| + 1))
     && LinesAt(bytes, pos + |lines[0]| + 1, lines[1..]))
  }

  /** Lines that are all plain. */
  predicate PlainLines(lines: seq<string>)
  {
    forall k :: 0 <= k < |lines| ==> PlainLine(lines[k])
  }

  /** How many bytes lines take, each with its '\n'. */
  function LinesLength(lines: seq<string>): nat
    decreases |lines|
  {
    if |lines| == 0 then 0 else |lines[0]| + 1 + LinesLength(lines[1..])
  }

  /** Three lines take their lengths plus three '\n's. */
  lemma LinesLengthThree(lines: seq<string>)
    requires |lines| == 3
    ensures LinesLength(lines) == |lines[0]| + |lines[1]| + |lines[2]| + 3
  {
    var tail := lines[1..];
    var last := tail[1..];
    assert tail[0] == lines[1] && last[0] == lines[2] && last[1..] == [];
    assert LinesLength(last) == |lines[2]| + 1 + LinesLength(last[1..]);
  }

  /** The bytes `save` writes for header lines: each line's ASCII bytes
      and a '\n' after it. */
  function LinesBytes(lines: seq<string>): (bs: seq<Byte>)
    requires PlainLines(lines)
    decreases |lines|
  {
    if |lines| == 0 then [] else AsciiBytes(lines[0]) + [NewlineByte] + LinesBytes(lines[1..])
  }

  /** The bytes of lines are as long as the lines and their '\n's. */
  lemma {:induction false} LinesBytesLength(lines: seq<string>)
    requires PlainLines(lines)
    ensures |LinesBytes(lines)| == LinesLength(lines)
    decreases |lines|
  {
    if |lines| > 0 {
      LinesBytesLength(lines[1..]);
    }
  }

  /** The first line's bytes and '\n' come first. */
  lemma LinesBytesSplit(before: seq<Byte>, lines: seq<string>, after: seq<Byte>)
    requires |lines| > 0 && PlainLines(lines)
    ensures before + LinesBytes(lines) + after
         == before + AsciiBytes(lines[0]) + [NewlineByte] + (LinesBytes(lines[1..]) + after)
    ensures before + LinesBytes(lines) + after
         == (before + AsciiBytes(lines[0]) + [NewlineByte]) + LinesBytes(lines[1..]) + after
  {
    var line, rest := AsciiBytes(lines[0]), LinesBytes(lines[1..]);
    assert LinesBytes(lines) == line + [NewlineByte] + rest;
    ConcatAssoc(before, line, [NewlineByte]);
    ConcatAssoc(before, line + [NewlineByte], rest);
    ConcatAssoc(before + line + [NewlineByte], rest, after);
  }

  /** A plain line closed by '\n' after any bytes is the next item of
      `lines()` where those bytes end. */
  lemma LineAfter(before: seq<Byte>, line: string, rest: seq<Byte>)
    requires PlainLine(line)
    ensures NextLine(before + AsciiBytes(line) + [NewlineByte] + rest, |before|)
         == Some(LineItem(Some(line), |before| + |line| + 1))
  {
    LineAtConcat(before, line, rest);
    NextLineOf(before + AsciiBytes(line) + [NewlineByte] + rest, |before|, line);
  }

  /** Those bytes, between any bytes before and after them, are the lines
      at the position where they start. */
  lemma {:induction false} LinesAtBytes(before: seq<Byte>, lines: seq<string>, after: seq<Byte>)
    requires PlainLines(lines)
    ensures LinesAt(before + LinesBytes(lines) + after, |before|, lines)
    decreases |lines|
  {
    if |lines| > 0 {
      var line, tail := lines[0], lines[1..];
      var bytes := before + LinesBytes(lines) + after;
      var next := before + AsciiBytes(line) + [NewlineByte];
      LinesBytesSplit(before, lines, after);
      LineAfter(before, line, LinesBytes(tail) + after);
      assert NextLine(bytes, |before|) == Some(LineItem(Some(line), |before| + |line| + 1));
      LinesAtBytes(next, tail, after);
      assert LinesAt(bytes, |next|, tail);
    }
  }

  /** `read_header` keeps plain lines closed by '\n' as they are. */
  lemma {:induction false} HeaderFromLines(bytes: seq<Byte>, pos: nat, head: seq<string>, lines: seq<string>)
    requires pos <= |bytes| && LinesAt(bytes, pos, lines)
    ensures HeaderFrom(bytes, pos, |lines|, head) == head + lines
    decreases |lines|
  {
    if |lines| > 0 {
      var line := lines[0];
      HeaderStep(bytes, pos, |lines|, head, LineItem(Some(line), pos + |line| + 1));
      HeaderFromLines(bytes, pos + |line| + 1, head + [line], lines[1..]);
      assert head + [line] + lines[1..] == head + lines;
    }
  }

  /** ... and goes on right after the last one. */
  lemma {:induction false} HeaderEndLines(bytes: seq<Byte>, pos: nat, lines: seq<string>)
    requires pos <= |bytes| && LinesAt(bytes, pos, lines)
    ensures HeaderEnd(bytes, pos, |lines|) == pos + LinesLength(lines)
    decreases |lines|
  {
    if |lines| > 0 {
      var line := lines[0];
      var next := pos + |line| + 1;
      HeaderEndStep(bytes, pos, |lines|, LineItem(Some(line), next));
      HeaderEndLines(bytes, next, lines[1..]);
    }
  }

  /** The bytes of three header lines, spelled out. */
  lemma LinesBytesThree(lines: seq<string>)
    requires |lines| == 3 && PlainLines(lines)
    ensures LinesBytes(lines)
         == AsciiBytes(lines[0]) + [NewlineByte] + AsciiBytes(lines[1]) + [NewlineByte]
            + AsciiBytes(lines[2]) + [NewlineByte]
    ensures |LinesBytes(lines)| == |lines[0]| + |lines[1]| + |lines[2]| + 3
  {
    var t1, t2 := lines[1..], lines[2..];
    assert t1[0] == lines[1] && t1[1..] == t2 && t2[0] == lines[2] && t2[1..] == [];
    assert LinesBytes(t2) == AsciiBytes(lines[2]) + [NewlineByte] + [];
  }

  /** A file that starts with three plain lines, each closed by '\n', has
      those lines as its header, and the contents go on right after the
      third '\n'. */
  lemma HeaderOfLines(lines: seq<string>, rest: seq<Byte>)
    requires |lines| == 3 && PlainLines(lines)
    ensures Header(LinesBytes(lines) + rest) == lines
    ensures HeaderEnd(LinesBytes(lines) + rest, 0, 3) == |LinesBytes(lines)|
                                                  == |lines[0]| + |lines[1]| + |lines[2]| + 3
  {
    LinesBytesLength(lines);
    LinesLengthThree(lines);
    var bytes := LinesBytes(lines) + rest;
    LinesAtBytes([], lines, rest);
    assert [] + LinesBytes(lines) + rest == bytes;
    HeaderFromLines(bytes, 0, [], lines);
    HeaderEndLines(bytes, 0, lines);
    assert [] + lines == lines;
  }

  function ReadCount(remaining: nat): nat
  {
    if remaining < 3 then remaining else 3
  }

  /** The buffer after one `read` at `pos`: the bytes read over its front,
      the rest of it as it was. */
  function Refill(buf: seq<Byte>, bytes: seq<Byte>, pos: nat): (r: seq<Byte>)
    requires |buf| == 3 && pos <= |bytes|
    ensures |r| == 3
  {
    var n := ReadCount(|bytes| - pos);
    bytes[pos..pos + n] + buf[n..]
  }

  /** `File::read` on a regular file: fills the front of `data` with as
      many bytes as are left, at most three, and says how many. */
  method Read(data: array<Byte>, bytes: seq<Byte>, pos: nat) returns (n: nat)
    requires data.Length == 3 && pos <= |bytes|
    modifies data
    ensures n == ReadCount(|bytes| - pos)
    ensures data[..] == Refill(old(data[..]), bytes, pos)
  {
    n := ReadCount(|bytes| - pos);
    for i := 0 to n
      invariant forall j :: 0 <= j < i ==> data[j] == bytes[pos + j]
      invariant forall j :: i <= j < 3 ==> data[j] == old(data[j])
    {
      data[i] := bytes[pos + i];
    }
  }

  /** Where the file stands after k reads started at `start`. */
  function ReadPos(bytes: seq<Byte>, start: nat, k: nat): (pos: nat)
    requires start <= |bytes|
    ensures pos <= |bytes|
  {
    if start + 3 * k < |bytes| then start + 3 * k else |bytes|
  }

  /** The buffer after k reads started at `start`; it begins as 8, 8, 8. */
  function BufferAfter(bytes: seq<Byte>, start: nat, k: nat): (buf: seq<Byte>)
    requires start <= |bytes|
    ensures |buf| == 3
  {
    if k == 0 then [8, 8, 8]
    else Refill(BufferAfter(bytes, start, k - 1), bytes, ReadPos(bytes, start, k - 1))
  }

  /** A full buffer as a pixel. */
  function BufferPixel(buf: seq<Byte>): Pixel
    requires |buf| == 3
  {
    Pixel(buf[0], buf[1], buf[2])
  }

  /** The pixels read in `count` rounds, one per refilled buffer. */
  function PixelsFrom(bytes: seq<Byte>, start: nat, count: nat): (ps: seq<Pixel>)
    requires start <= |bytes|
    ensures |ps| == count
  {
    if count == 0 then []
    else PixelsFrom(bytes, start, count - 1) + [BufferPixel(BufferAfter(bytes, start, count))]
  }

  /** The pixel loop of `new_with_binary_file`: `count` times, read into
      the buffer and push its three bytes as a pixel, each passed through
      `to_string().parse::<u8>()`. */
  method ReadPixels(bytes: seq<Byte>, start: nat, count: nat) returns (pixels: seq<Pixel>)
    requires start <= |bytes|
    ensures pixels == PixelsFrom(bytes, start, count)
  {
    var data := new Byte[3](_ => 8);
    assert data[..] == [8, 8, 8];
    var pos := start;
    pixels := [];
    for k := 0 to count
      invariant pos == ReadPos(bytes, start, k)
      invariant data[..] == BufferAfter(bytes, start, k)
      invariant pixels == PixelsFrom(bytes, start, k)
    {
      var n := Read(data, bytes, pos);
      pos := pos + n;
      ParseU8OfDec(data[0]);
      ParseU8OfDec(data[1]);
      ParseU8OfDec(data[2]);
      var pixel := Pixel(ParseU8(Dec(data[0])).value, ParseU8(Dec(data[1])).value, ParseU8(Dec(data[2])).value);
      pixels := pixels + [pixel];
    }
  }

  /** While three bytes are left, a read takes exactly the next three. */
  lemma BufferAfterInRange(bytes: seq<Byte>, start: nat, k: nat)
    requires start <= |bytes| && 1 <= k && start + 3 * k <= |bytes|
    ensures BufferAfter(bytes, start, k) == bytes[start + 3 * (k - 1)..start + 3 * k]
  {
    assert ReadPos(bytes, start, k - 1) == start + 3 * (k - 1);
  }

  /** Given enough bytes, pixel i is made of the bytes at start + 3i,
      start + 3i + 1 and start + 3i + 2. */
  lemma {:induction false} PixelsFromInRange(bytes: seq<Byte>, start: nat, count: nat)
    requires start <= |bytes| && start + 3 * count <= |bytes|
    ensures forall i :: 0 <= i < count ==>
      PixelsFrom(bytes, start, count)[i]
        == Pixel(bytes[start + 3 * i], bytes[start + 3 * i + 1], bytes[start + 3 * i + 2])
  {
    if count > 0 {
      PixelsFromInRange(bytes, start, count - 1);
      BufferAfterInRange(bytes, start, count);
    }
  }

  /** Pixel i comes from the buffer after read i + 1. */
  lemma {:induction false} PixelsFromAt(bytes: seq<Byte>, start: nat, count: nat, i: nat)
    requires start <= |bytes| && i < count
    ensures PixelsFrom(bytes, start, count)[i] == BufferPixel(BufferAfter(bytes, start, i + 1))
  {
    var init := PixelsFrom(bytes, start, count - 1);
    assert PixelsFrom(bytes, start, count) == init + [BufferPixel(BufferAfter(bytes, start, count))];
    if i < count - 1 {
      PixelsFromAt(bytes, start, count - 1, i);
      assert PixelsFrom(bytes, start, count)[i] == init[i];
    }
  }

  /** Once the file is used up a read takes nothing, so the buffer keeps
      its stale bytes and the pixel read is the previous one again. */
  lemma StaleBuffer(bytes: seq<Byte>, start: nat, count: nat, k: nat)
    requires start <= |bytes| && 1 <= k < count && |bytes| <= start + 3 * k
    ensures PixelsFrom(bytes, start, count)[k] == PixelsFrom(bytes, start, count)[k - 1]
  {
    PixelsFromAt(bytes, start, count, k);
    PixelsFromAt(bytes, start, count, k - 1);
    assert ReadPos(bytes, start, k) == |bytes|;
    assert BufferAfter(bytes, start, k + 1) == BufferAfter(bytes, start, k);
  }

  /** With nothing left to read, every pixel is the buffer's initial 8, 8, 8. */
  lemma {:induction false} NothingToRead(bytes: seq<Byte>, count: nat)
    ensures forall i :: 0 <= i < count ==> PixelsFrom(bytes, |bytes|, count)[i] == Pixel(8, 8, 8)
  {
    if count > 0 {
      NothingToRead(bytes, count - 1);
      assert BufferAfter(bytes, |bytes|, count) == [8, 8, 8] by {
        BufferEmptyFile(bytes, count);
      }
    }
  }

  lemma {:induction false} BufferEmptyFile(bytes: seq<Byte>, k: nat)
    ensures BufferAfter(bytes, |bytes|, k) == [8, 8, 8]
  {
    if k > 0 {
      BufferEmptyFile(bytes, k - 1);
      assert ReadPos(bytes, |bytes|, k - 1) == |bytes|;
    }
  }

  /** `read_header` also wants three '\n'-separated lines, so a header
      written on one line, as the format description allows, is a single
      header line and the file is refused. */
  lemma BinaryHeaderOnOneLine(header: string)
    requires PlainLine(header)
    ensures DecodeBinary(AsciiBytes(header) + [NewlineByte]) == Err(MissingHeaderLine)
  {
    var bytes := AsciiBytes(header) + [NewlineByte];
    LineAfter([], header, []);
    assert [] + AsciiBytes(header) + [NewlineByte] + [] == bytes;
    HeaderStep(bytes, 0, 3, [], LineItem(Some(header), |header| + 1));
    HeaderDone(bytes, |header| + 1, 2, [header]);
    assert Header(bytes) == [header];
  }
  /** When two more lines follow a one-line header, `read_header` takes
      them as the dimensions and max_color, and the file is accepted. */
  lemma BinaryHeaderOnOneLineThenTwo(header: string, dims: string, maxColor: string, rest: seq<Byte>)
    requires PlainLine(header) && PlainLine(dims) && PlainLine(maxColor)
    requires ParseDimensions(dims).Ok? && ParseUsize(maxColor).Some?
    ensures var r := DecodeBinary(LinesBytes([header, dims, maxColor]) + rest);
      r.Ok? && r.value.magic == header && (r.value.height, r.value.width) == ParseDimensions(dims).value
      && r.value.maxColor == ParseUsize(maxColor).value
  {
    HeaderOfLines([header, dims, maxColor], rest);
  }


  /** What `new_with_binary_file` makes of a file's contents, as written:
      fewer than two header lines fail; height and width come from header
      line 1 (height first); height * width pixels are read from offset 0
      of the contents, header included; max_color comes from line 2. */
  function DecodeBinary(bytes: seq<Byte>): (res: Result<Image>)
    ensures res.Ok? <==> |Header(bytes)| == 3 && ParseDimensions(Header(bytes)[1]).Ok? && ParseUsize(Header(bytes)[2]).Some?
    ensures res.Ok? ==> res.value.magic == Header(bytes)[0]
    ensures res.Ok? ==> ParseDimensions(Header(bytes)[1]) == Ok((res.value.height, res.value.width))
    ensures res.Ok? ==> ParseUsize(Header(bytes)[2]) == Some(res.value.maxColor)
    ensures |Header(bytes)| < 2 ==> res == Err(MissingHeaderLine)
    ensures |Header(bytes)| >= 2 && ParseDimensions(Header(bytes)[1]).Err? ==> res == Err(MalformedHeader)
    ensures |Header(bytes)| == 2 && ParseDimensions(Header(bytes)[1]).Ok? ==> res == Err(MissingHeaderLine)
    ensures |Header(bytes)| == 3 && ParseDimensions(Header(bytes)[1]).Ok? && ParseUsize(Header(bytes)[2]).None?
            ==> res == Err(MalformedHeader)
    ensures res.Ok? ==> |res.value.pixels| == Size(res.value)
    ensures res.Ok? ==> res.value.pixels == PixelsFrom(bytes, 0, Size(res.value))
  {
    var head := Header(bytes);
    if |head| < 2 then Err(MissingHeaderLine)
    else
      match ParseDimensions(head[1])
      case Err(e) => Err(e)
      case Ok(hw) =>
        var pixels := PixelsFrom(bytes, 0, Rows(hw.0, hw.1));
        if |head| < 3 then Err(MissingHeaderLine)
        else
          match ParseUsize(head[2])
          case None => Err(MalformedHeader)
          case Some(maxColor) => Ok(Image(head[0], hw.0, hw.1, maxColor, pixels))
  }

  /** `new_with_binary_file`, the file replaced by its contents. An index
      or `unwrap` that would panic returns an error instead. */
  method NewWithBinaryFile(bytes: seq<Byte>) returns (res: Result<Image>)
    ensures res == DecodeBinary(bytes)
  {
    var head := ReadHeader(bytes);
    if |head| < 2 {
      return Err(MissingHeaderLine);
    }
    var dims := ParseDimensions(head[1]);
    if dims.Err? {
      return Err(dims.error);
    }
    var h, w := dims.value.0, dims.value.1;
    var count := h as int * w as int;
    RowsIsProduct(h, w);
    var pixels := ReadPixels(bytes, 0, count);
    if |head| < 3 {
      return Err(MissingHeaderLine);
    }
    var maxColor := ParseUsize(head[2]);
    if maxColor.None? {
      return Err(MalformedHeader);
    }
    return Ok(Image(head[0], h, w, maxColor.value, pixels));
  }

  /** Given at least 3 * height * width bytes, pixel i of the image read is
      the three bytes at 3i of the contents, counted from offset 0. */
  lemma DecodeBinaryPixels(bytes: seq<Byte>, im: Image)
    requires DecodeBinary(bytes) == Ok(im) && 3 * Size(im) <= |bytes|
    ensures forall i :: 0 <= i < Size(im) ==> im.pixels[i] == Pixel(bytes[3 * i], bytes[3 * i + 1], bytes[3 * i + 2])
  {
    PixelsFromInRange(bytes, 0, Size(im));
  }

  /** As written, the binary reader takes the header's own first bytes for
      pixels: a file beginning "P6\n" gets 'P', '6' and '\n', that is
      80, 54 and 10, as its first pixel. */
  lemma BinaryReadsHeaderAsPixel(bytes: seq<Byte>, im: Image)
    requires DecodeBinary(bytes) == Ok(im) && Size(im) >= 1
    requires |bytes| >= 3 && bytes[0] == 80 && bytes[1] == 54 && bytes[2] == NewlineByte
    ensures im.pixels[0] == Pixel(80, 54, 10)
  {
    PixelsFromAt(bytes, 0, Size(im), 0);
    BufferAfterInRange(bytes, 0, 1);
  }

  /** What `new_with_binary_file` evidently means: the same, but the pixels
      are read from where the three header lines end. */
  function DecodeBinaryIntended(bytes: seq<Byte>): (res: Result<Image>)
    ensures res.Ok? <==> |Header(bytes)| == 3 && ParseDimensions(Header(bytes)[1]).Ok? && ParseUsize(Header(bytes)[2]).Some?
    ensures res.Ok? ==> res.value.magic == Header(bytes)[0]
    ensures res.Ok? ==> ParseDimensions(Header(bytes)[1]) == Ok((res.value.height, res.value.width))
    ensures res.Ok? ==> ParseUsize(Header(bytes)[2]) == Some(res.value.maxColor)
    ensures |Header(bytes)| < 2 ==> res == Err(MissingHeaderLine)
    ensures |Header(bytes)| >= 2 && ParseDimensions(Header(bytes)[1]).Err? ==> res == Err(MalformedHeader)
    ensures |Header(bytes)| == 2 && ParseDimensions(Header(bytes)[1]).Ok? ==> res == Err(MissingHeaderLine)
    ensures |Header(bytes)| == 3 && ParseDimensions(Header(bytes)[1]).Ok? && ParseUsize(Header(bytes)[2]).None?
            ==> res == Err(MalformedHeader)
    ensures res.Ok? ==> |res.value.pixels| == Size(res.value)
    ensures res.Ok? ==> res.value.pixels == PixelsFrom(bytes, HeaderEnd(bytes, 0, 3), Size(res.value))
  {
    var head := Header(bytes);
    if |head| < 2 then Err(MissingHeaderLine)
    else
      match ParseDimensions(head[1])
      case Err(e) => Err(e)
      case Ok(hw) =>
        var pixels := PixelsFrom(bytes, HeaderEnd(bytes, 0, 3), Rows(hw.0, hw.1));
        if |head| < 3 then Err(MissingHeaderLine)
        else
          match ParseUsize(head[2])
          case None => Err(MalformedHeader)
          case Some(maxColor) => Ok(Image(head[0], hw.0, hw.1, maxColor, pixels))
  }

  /** The corrected reader: the pixel loop continues where the header ended. */
  method NewWithBinaryFileIntended(bytes: seq<Byte>) returns (res: Result<Image>)
    ensures res == DecodeBinaryIntended(bytes)
  {
    var head := ReadHeader(bytes);
    if |head| < 2 {
      return Err(MissingHeaderLine);
    }
    var dims := ParseDimensions(head[1]);
    if dims.Err? {
      return Err(dims.error);
    }
    var h, w := dims.value.0, dims.value.1;
    var count := h as int * w as int;
    RowsIsProduct(h, w);
    var pixels := ReadPixels(bytes, HeaderEnd(bytes, 0, 3), count);
    if |head| < 3 {
      return Err(MissingHeaderLine);
    }
    var maxColor := ParseUsize(head[2]);
    if maxColor.None? {
      return Err(MalformedHeader);
    }
    return Ok(Image(head[0], h, w, maxColor.value, pixels));
  }

  /** The corrected reader takes pixel i from the three bytes at 3i after
      the header, given that many bytes. */
  lemma DecodeBinaryIntendedPixels(bytes: seq<Byte>, im: Image, start: nat)
    requires DecodeBinaryIntended(bytes) == Ok(im) && start == HeaderEnd(bytes, 0, 3)
    requires start + 3 * Size(im) <= |bytes|
    ensures forall i :: 0 <= i < Size(im) ==>
      im.pixels[i] == Pixel(bytes[start + 3 * i], bytes[start + 3 * i + 1], bytes[start + 3 * i + 2])
  {
    PixelsFromInRange(bytes, start, Size(im));
  }
}
