/** The two string splitters the text reader relies on:
    `str::split("\n")` and `str::split_whitespace` (ASCII whitespace only). */
module Text {
  import opened Numeric

  /** ASCII whitespace: space, TAB, LF, VT, FF and CR. */
  predicate IsWhitespace(c: char) { c == ' ' || '\t' <= c <= '\r' }

  /** Concatenation regroups freely. */
  lemma ConcatAssoc<T>(a: seq<T>, b: seq<T>, c: seq<T>)
    ensures (a + b) + c == a + (b + c)
  {
  }

  predicate NoNewline(s: string) { forall i :: 0 <= i < |s| ==> s[i] != '\n' }

  predicate NoWhitespace(s: string) { forall i :: 0 <= i < |s| ==> !IsWhitespace(s[i]) }

  /** Pieces of `s` between '\n' separators, the first one continuing `cur`. */
  function SplitFrom(s: string, cur: string): (r: seq<string>)
    requires NoNewline(cur)
    ensures |r| >= 1 && forall i :: 0 <= i < |r| ==> NoNewline(r[i])
    decreases |s|
  {
    if |s| == 0 then [cur]
    else if s[0] == '\n' then [cur] + SplitFrom(s[1..], "")
    else SplitFrom(s[1..], cur + [s[0]])
  }

  /** `s.split("\n")`: always at least one piece, none holding a '\n'
      ("" gives [""], a trailing '\n' gives a trailing ""). */
  function Lines(s: string): (r: seq<string>)
    ensures |r| >= 1 && forall i :: 0 <= i < |r| ==> NoNewline(r[i])
  {
    SplitFrom(s, "")
  }

  /** Glues pieces back together with '\n' between them. */
  function JoinLines(ls: seq<string>): string
    requires |ls| >= 1
  {
    if |ls| == 1 then ls[0] else ls[0] + "\n" + JoinLines(ls[1..])
  }

  lemma {:induction false} SplitFromWord(w: string, s: string, cur: string)
    requires NoNewline(w) && NoNewline(cur)
    ensures SplitFrom(w + s, cur) == SplitFrom(s, cur + w)
    decreases |w|
  {
    if |w| > 0 {
      assert (w + s)[1..] == w[1..] + s;
      assert cur + [w[0]] + w[1..] == cur + w;
      SplitFromWord(w[1..], s, cur + [w[0]]);
    } else {
      assert w + s == s && cur + w == cur;
    }
  }

  /** A piece free of '\n' followed by a separator is split off whole. */
  lemma LinesCons(x: string, y: string)
    requires NoNewline(x)
    ensures Lines(x + "\n" + y) == [x] + Lines(y)
  {
    assert x + "\n" + y == x + ("\n" + y);
    SplitFromWord(x, "\n" + y, "");
    assert "" + x == x;
    assert ("\n" + y)[1..] == y;
  }

  /** A string free of '\n' is one piece. */
  lemma LinesSingle(x: string)
    requires NoNewline(x)
    ensures Lines(x) == [x]
  {
    SplitFromWord(x, "", "");
    assert x + "" == x && "" + x == x;
  }

  /** Joining the pieces with '\n' gives the string back: the splitter loses nothing. */
  lemma {:induction false} JoinSplitFrom(s: string, cur: string)
    requires NoNewline(cur)
    ensures JoinLines(SplitFrom(s, cur)) == cur + s
    decreases |s|
  {
    if |s| == 0 {
    } else if s[0] == '\n' {
      JoinSplitFrom(s[1..], "");
      assert s == "\n" + s[1..];
    } else {
      JoinSplitFrom(s[1..], cur + [s[0]]);
      assert cur + [s[0]] + s[1..] == cur + s;
    }
  }

  lemma JoinLinesOfLines(s: string)
    ensures JoinLines(Lines(s)) == s
  {
    JoinSplitFrom(s, "");
  }

  /** Whitespace-separated words of `s`, the first one continuing `cur`. */
  function TokensFrom(s: string, cur: string): (r: seq<string>)
    requires NoWhitespace(cur)
    ensures forall i :: 0 <= i < |r| ==> |r[i]| >= 1 && NoWhitespace(r[i])
    decreases |s|
  {
    if |s| == 0 then (if cur == "" then [] else [cur])
    else if IsWhitespace(s[0]) then (if cur == "" then [] else [cur]) + TokensFrom(s[1..], "")
    else TokensFrom(s[1..], cur + [s[0]])
  }

  /** `s.split_whitespace()`: the non-empty maximal runs of non-whitespace. */
  function Tokens(s: string): (r: seq<string>)
    ensures s == "" ==> r == []
    ensures forall i :: 0 <= i < |r| ==> |r[i]| >= 1 && NoWhitespace(r[i])
  {
    TokensFrom(s, "")
  }

  lemma {:induction false} TokensFromWord(w: string, s: string, cur: string)
    requires NoWhitespace(w) && NoWhitespace(cur)
    ensures TokensFrom(w + s, cur) == TokensFrom(s, cur + w)
    decreases |w|
  {
    if |w| > 0 {
      assert (w + s)[1..] == w[1..] + s;
      assert cur + [w[0]] + w[1..] == cur + w;
      TokensFromWord(w[1..], s, cur + [w[0]]);
    } else {
      assert w + s == s && cur + w == cur;
    }
  }

  /** Whitespace before the first word gives no token. */
  lemma TokensSkip(c: char, s: string)
    requires IsWhitespace(c)
    ensures Tokens([c] + s) == Tokens(s)
  {
    assert ([c] + s)[1..] == s;
  }

  /** A word followed by any whitespace character is split off whole.
      With TokensSkip, TokensSingle and `Tokens("") == []` this fixes the
      tokens of every string: its maximal runs of non-whitespace, in order. */
  lemma TokensCons(w: string, c: char, s: string)
    requires |w| >= 1 && NoWhitespace(w) && IsWhitespace(c)
    ensures Tokens(w + [c] + s) == [w] + Tokens(s)
  {
    assert w + [c] + s == w + ([c] + s);
    TokensFromWord(w, [c] + s, "");
    assert "" + w == w;
    assert ([c] + s)[1..] == s;
  }

  /** A word alone is one token. */
  lemma TokensSingle(w: string)
    requires |w| >= 1 && NoWhitespace(w)
    ensures Tokens(w) == [w]
  {
    TokensFromWord(w, "", "");
    assert w + "" == w && "" + w == w;
  }

  /** Decimal renderings contain neither whitespace nor '\n'. */
  lemma DecIsWord(n: nat)
    ensures |Dec(n)| >= 1 && NoWhitespace(Dec(n)) && NoNewline(Dec(n))
  {
    DecDigits(n);
  }
}
