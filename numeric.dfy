/** Fixed-width integers of the library and their decimal text form:
    Rust's `{}` formatting of unsigned integers and `str::parse` into
    `u8` and `usize`. */
module Numeric {
  import opened Wrappers

  /** Rust `u8`. */
  type Byte = x: int | 0 <= x < 256

  /** Rust `usize` on a 64-bit target. */
  type Usize = x: int | 0 <= x < 0x1_0000_0000_0000_0000

  predicate IsDigit(c: char) { '0' <= c <= '9' }

  predicate AllDigits(s: string) { forall i :: 0 <= i < |s| ==> IsDigit(s[i]) }

  function DigitChar(d: nat): (c: char)
    requires d < 10
    ensures IsDigit(c)
  {
    (('0' as int) + d) as char
  }

  function DigitValue(c: char): (d: nat)
    requires IsDigit(c)
    ensures d < 10 && DigitChar(d) == c
  {
    (c as int) - ('0' as int)
  }

  /** Decimal rendering of `n` as `format!("{}", n)` writes it. */
  function Dec(n: nat): string
  {
    if n < 10 then [DigitChar(n)] else Dec(n / 10) + [DigitChar(n % 10)]
  }

  /** The rendering is at least one digit, with no sign and no leading zero. */
  lemma {:induction false} DecDigits(n: nat)
    ensures |Dec(n)| >= 1 && AllDigits(Dec(n))
    ensures Dec(n)[0] == '0' ==> n == 0
  {
    if n >= 10 {
      DecDigits(n / 10);
      assert Dec(n)[0] == Dec(n / 10)[0];
    }
  }

  /** The number a digit string denotes (leading zeros allowed). */
  function Value(s: string): nat
    requires AllDigits(s)
  {
    if |s| == 0 then 0 else Value(s[..|s| - 1]) * 10 + DigitValue(s[|s| - 1])
  }

  /** A digit string whose first digit is not 0 denotes at least 1. */
  lemma {:induction false} ValuePositive(s: string)
    requires |s| >= 1 && AllDigits(s) && s[0] != '0'
    ensures Value(s) >= 1
  {
    if |s| > 1 {
      var init := s[..|s| - 1];
      assert init[0] == s[0];
      ValuePositive(init);
    }
  }

  /** A digit string with no leading zero (other than "0" itself) is the
      decimal rendering of the number it denotes. */
  lemma {:induction false} DecOfValue(s: string)
    requires |s| >= 1 && AllDigits(s)
    ensures |s| == 1 || s[0] != '0' ==> Dec(Value(s)) == s
  {
    var init, last := s[..|s| - 1], s[|s| - 1];
    if |s| == 1 {
      assert init == [];
      assert s == [last];
    } else if s[0] != '0' {
      assert init[0] == s[0];
      DecOfValue(init);
      ValuePositive(init);
      var v := Value(s);
      assert v == Value(init) * 10 + DigitValue(last);
      assert v / 10 == Value(init) && v % 10 == DigitValue(last);
      assert s == init + [last];
    }
  }

  /** `s.parse::<u8>()`: a non-empty digit string whose value fits in a
      byte. A string without leading zeros that parses is exactly the
      rendering of its value, so with ParseU8OfDec, rendering and parsing
      are inverse on bytes and their canonical digit strings. */
  function ParseU8(s: string): (r: Option<Byte>)
    ensures r.Some? <==> |s| >= 1 && AllDigits(s) && Value(s) < 256
    ensures r.Some? ==> r.value == Value(s)
    ensures r.Some? && (|s| == 1 || s[0] != '0') ==> Dec(r.value) == s
  {
    if |s| >= 1 && AllDigits(s) && Value(s) < 256 then
      DecOfValue(s);
      Some(Value(s))
    else None
  }

  /** `s.parse::<usize>()`: a non-empty digit string whose value fits in a
      usize; as for ParseU8, a canonical string that parses is the
      rendering of its value. */
  function ParseUsize(s: string): (r: Option<Usize>)
    ensures r.Some? <==> |s| >= 1 && AllDigits(s) && Value(s) < 0x1_0000_0000_0000_0000
    ensures r.Some? ==> r.value == Value(s)
    ensures r.Some? && (|s| == 1 || s[0] != '0') ==> Dec(r.value) == s
  {
    if |s| >= 1 && AllDigits(s) && Value(s) < 0x1_0000_0000_0000_0000 then
      DecOfValue(s);
      Some(Value(s))
    else None
  }

  /** Reading back a decimal rendering gives the number. */
  lemma {:induction false} ValueOfDec(n: nat)
    ensures AllDigits(Dec(n)) && Value(Dec(n)) == n
  {
    DecDigits(n);
    if n >= 10 {
      var s := Dec(n);
      assert s[..|s| - 1] == Dec(n / 10);
      ValueOfDec(n / 10);
    }
  }

  /** `b.to_string().parse::<u8>()` is `Some(b)` for every byte. */
  lemma ParseU8OfDec(b: Byte)
    ensures ParseU8(Dec(b)) == Some(b)
  {
    ValueOfDec(b);
  }

  /** `n.to_string().parse::<usize>()` is `Some(n)` for every usize. */
  lemma ParseUsizeOfDec(n: Usize)
    ensures ParseUsize(Dec(n)) == Some(n)
  {
    ValueOfDec(n);
  }
}
