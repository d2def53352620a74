/**
 * The output escaping of the property writer (escapeUnicode), and a local decoder for the
 * `\uXXXX` Unicode escapes of section 3.3 of the Java Language Specification, used to state
 * what the escaping preserves.
 *
 * A Java String is a sequence of UTF-16 code units; here a string is a sequence of Unicode
 * scalar values. A character outside the Basic Multilingual Plane is two code units in Java,
 * both at or above 128, so Java writes it as two escapes: its surrogate pair.
 */
module Codec {
  import opened Wrappers

  /** One upper-case hexadecimal digit, as String.format("%X") writes it. */
  function HexDigit(d: int): (c: char)
    requires 0 <= d < 16
    ensures '0' <= c <= '9' || 'A' <= c <= 'F'
  {
    if d < 10 then ('0' as int + d) as char else ('A' as int + d - 10) as char
  }

  /** The value of a hexadecimal digit of either case, or -1 for any other character. */
  function HexValue(c: char): (v: int)
    ensures -1 <= v < 16
  {
    if '0' <= c <= '9' then c as int - '0' as int
    else if 'A' <= c <= 'F' then c as int - 'A' as int + 10
    else if 'a' <= c <= 'f' then c as int - 'a' as int + 10
    else -1
  }

  /** String.format("%04X", n): exactly four upper-case hexadecimal digits. */
  function Hex4(n: int): (h: string)
    requires 0 <= n < 0x10000
    ensures |h| == 4
  {
    var d0 := n % 16;
    var n1 := n / 16;
    var d1 := n1 % 16;
    var n2 := n1 / 16;
    var d2 := n2 % 16;
    var d3 := n2 / 16;
    [HexDigit(d3), HexDigit(d2), HexDigit(d1), HexDigit(d0)]
  }

  predicate IsHex4(h: string)
  {
    |h| == 4 && forall i :: 0 <= i < 4 ==> HexValue(h[i]) >= 0
  }

  /** The number four hexadecimal digits stand for. */
  function Hex4Value(h: string): (v: int)
    requires IsHex4(h)
    ensures 0 <= v < 0x10000
  {
    ((HexValue(h[0]) * 16 + HexValue(h[1])) * 16 + HexValue(h[2])) * 16 + HexValue(h[3])
  }

  /** A digit reads back as the value it was written from. */
  lemma HexDigitValue(d: int)
    requires 0 <= d < 16
    ensures HexValue(HexDigit(d)) == d
  {
  }

  /** Four upper-case digits read back as the number they were written from. */
  lemma Hex4RoundTrip(n: int)
    requires 0 <= n < 0x10000
    ensures IsHex4(Hex4(n)) && Hex4Value(Hex4(n)) == n
    ensures forall i :: 0 <= i < 4 ==> '0' <= Hex4(n)[i] <= '9' || 'A' <= Hex4(n)[i] <= 'F'
  {
    var n1 := n / 16;
    var n2 := n1 / 16;
    var d0, d1, d2, d3 := n % 16, n1 % 16, n2 % 16, n2 / 16;
    var h := Hex4(n);
    assert h == [HexDigit(d3), HexDigit(d2), HexDigit(d1), HexDigit(d0)];
    HexDigitValue(d0);
    HexDigitValue(d1);
    HexDigitValue(d2);
    HexDigitValue(d3);
    assert n == n1 * 16 + d0;
    assert n1 == n2 * 16 + d1;
    assert n2 == d3 * 16 + d2;
    assert Hex4Value(h) == ((d3 * 16 + d2) * 16 + d1) * 16 + d0;
  }

  /** A character the writer copies as it is: 7-bit and neither line feed nor carriage return. */
  predicate PlainChar(c: char)
  {
    c as int < 128 && c != '\n' && c != '\r'
  }

  /** Text that fits on one line of a 7-bit file. */
  predicate IsPlain(s: string)
  {
    forall i :: 0 <= i < |s| ==> PlainChar(s[i])
  }

  /** The leading UTF-16 code unit of a character outside the Basic Multilingual Plane. */
  function HighSurrogate(n: int): (h: int)
    requires 0x10000 <= n < 0x110000
    ensures 0xD800 <= h < 0xDC00
  {
    0xD800 + (n - 0x10000) / 0x400
  }

  /** The trailing UTF-16 code unit of a character outside the Basic Multilingual Plane. */
  function LowSurrogate(n: int): (l: int)
    requires 0x10000 <= n < 0x110000
    ensures 0xDC00 <= l < 0xE000
  {
    0xDC00 + (n - 0x10000) % 0x400
  }

  /** The two code units together give the character back. */
  lemma SurrogatesCombine(n: int)
    requires 0x10000 <= n < 0x110000
    ensures 0x10000 + (HighSurrogate(n) - 0xD800) * 0x400 + (LowSurrogate(n) - 0xDC00) == n
  {
    var u := n - 0x10000;
    assert u == (u / 0x400) * 0x400 + u % 0x400;
  }

  /** How escapeUnicode writes one character. */
  function EscapeChar(c: char): string
  {
    var n := c as int;
    if n >= 128 then
      if n < 0x10000 then "\\u" + Hex4(n)
      else "\\u" + Hex4(HighSurrogate(n)) + "\\u" + Hex4(LowSurrogate(n))
    else if c == '\n' then "\\u000a"
    else if c == '\r' then "\\u000d"
    else [c]
  }

  lemma EscapeCharPlain(c: char)
    ensures IsPlain(EscapeChar(c))
  {
    var n := c as int;
    if n >= 128 {
      if n < 0x10000 {
        UnicodeEscapePlain(n);
      } else {
        var hi, lo := HighSurrogate(n), LowSurrogate(n);
        UnicodeEscapePlain(hi);
        UnicodeEscapePlain(lo);
        PlainConcat("\\u" + Hex4(hi), "\\u" + Hex4(lo));
        assert EscapeChar(c) == ("\\u" + Hex4(hi)) + ("\\u" + Hex4(lo));
      }
    }
  }

  /** One `\uXXXX` escape is plain text. */
  lemma UnicodeEscapePlain(n: int)
    requires 0 <= n < 0x10000
    ensures IsPlain("\\u" + Hex4(n))
  {
    Hex4RoundTrip(n);
    PlainConcat("\\u", Hex4(n));
  }

  /** Two pieces of plain text make plain text. */
  lemma PlainConcat(a: string, b: string)
    requires IsPlain(a) && IsPlain(b)
    ensures IsPlain(a + b)
  {
    forall i | 0 <= i < |a + b|
      ensures PlainChar((a + b)[i])
    {
      if i >= |a| {
        assert (a + b)[i] == b[i - |a|];
      }
    }
  }

  /**
   * The text escapeUnicode builds: every character at or above 128 becomes a `\uXXXX` escape, a line feed
   * `\u000a`, a carriage return `\u000d`; everything else is copied. The result is 7-bit and
   * holds no line break.
   */
  function Escaped(s: string): string
  {
    if s == [] then [] else EscapeChar(s[0]) + Escaped(s[1..])
  }

  /** The escaped text is 7-bit and holds no line break. */
  lemma {:induction false} EscapedIsPlain(s: string)
    ensures IsPlain(Escaped(s))
    decreases |s|
  {
    if s != [] {
      EscapeCharPlain(s[0]);
      EscapedIsPlain(s[1..]);
      PlainConcat(EscapeChar(s[0]), Escaped(s[1..]));
    }
  }

  /** What happens to each kind of character. */
  lemma EscapeCharSpec(c: char)
    ensures PlainChar(c) ==> EscapeChar(c) == [c]
    ensures c == '\n' ==> EscapeChar(c) == "\\u000a"
    ensures c == '\r' ==> EscapeChar(c) == "\\u000d"
    ensures 128 <= c as int < 0x10000 ==>
      var e := EscapeChar(c);
      |e| == 6 && e[..2] == "\\u" && IsHex4(e[2..]) && Hex4Value(e[2..]) == c as int
      && forall i :: 2 <= i < 6 ==> '0' <= e[i] <= '9' || 'A' <= e[i] <= 'F'
  {
    if 128 <= c as int < 0x10000 {
      Hex4RoundTrip(c as int);
      assert EscapeChar(c)[2..] == Hex4(c as int);
    }
  }

  /** Escaping works character by character, so it distributes over concatenation. */
  lemma {:induction false} EscapedAppend(a: string, b: string)
    ensures Escaped(a + b) == Escaped(a) + Escaped(b)
    decreases |a|
  {
    if a == [] {
      assert a + b == b;
    } else {
      assert (a + b)[1..] == a[1..] + b;
      EscapedAppend(a[1..], b);
    }
  }

  /** Text that is already 7-bit and single-line is written unchanged. */
  lemma {:induction false} EscapedPlain(s: string)
    requires IsPlain(s)
    ensures Escaped(s) == s
    decreases |s|
  {
    if s != [] {
      assert PlainChar(s[0]);
      EscapedPlain(s[1..]);
    }
  }

  /** Escaping twice is escaping once. */
  lemma EscapedIdempotent(s: string)
    ensures Escaped(Escaped(s)) == Escaped(s)
  {
    EscapedIsPlain(s);
    EscapedPlain(Escaped(s));
  }

  /**
   * escapeUnicode(input): the characters are escaped one at a time, left to right, into a
   * builder. The result is the escaped text, so it is 7-bit and holds no line break.
   */
  method EscapeUnicode(input: string) returns (b: string)
    ensures b == Escaped(input)
  {
    b := [];
    var i := 0;
    while i < |input|
      invariant i <= |input|
      invariant b == Escaped(input[..i])
    {
      var c := input[i];
      assert input[..i + 1] == input[..i] + [c];
      EscapedAppend(input[..i], [c]);
      assert Escaped([c]) == EscapeChar(c) + Escaped([]);
      b := b + EscapeChar(c);
      i := i + 1;
    }
    assert input[..i] == input;
  }

  function Prepend(c: char, t: Option<string>): Option<string>
  {
    match t
    case None => None
    case Some(u) => Some([c] + u)
  }

  /**
   * Decodes the `\uXXXX` escapes (a surrogate pair standing for one character outside the
   * Basic Multilingual Plane). Only this subset of Java's escapes is covered: any other use of
   * a backslash, and an unpaired surrogate, give None.
   */
  function UnescapeUnicode(s: string): Option<string>
    decreases |s|
  {
    if s == [] then Some([])
    else if s[0] != '\\' then Prepend(s[0], UnescapeUnicode(s[1..]))
    else if |s| >= 6 && s[1] == 'u' && IsHex4(s[2..6]) then
      var v := Hex4Value(s[2..6]);
      if v < 0xD800 || 0xE000 <= v then Prepend(v as char, UnescapeUnicode(s[6..]))
      else if v < 0xDC00 && |s| >= 12 && s[6] == '\\' && s[7] == 'u' && IsHex4(s[8..12])
              && 0xDC00 <= Hex4Value(s[8..12]) < 0xE000 then
        var w := Hex4Value(s[8..12]);
        Prepend((0x10000 + (v - 0xD800) * 0x400 + (w - 0xDC00)) as char, UnescapeUnicode(s[12..]))
      else None
    else None
  }

  lemma DecodeBmp(n: int, rest: string)
    requires 0 <= n < 0xD800 || 0xE000 <= n < 0x10000
    ensures UnescapeUnicode("\\u" + Hex4(n) + rest) == Prepend(n as char, UnescapeUnicode(rest))
  {
    var s := "\\u" + Hex4(n) + rest;
    Hex4RoundTrip(n);
    assert s[2..6] == Hex4(n);
    assert s[6..] == rest;
  }

  lemma DecodeControl(e: string, n: int, rest: string)
    requires e == "000a" || e == "000d"
    requires n == if e == "000a" then 10 else 13
    ensures UnescapeUnicode("\\u" + e + rest) == Prepend(n as char, UnescapeUnicode(rest))
  {
    var s := "\\u" + e + rest;
    assert s[2..6] == e && s[6..] == rest;
    assert IsHex4(e) && Hex4Value(e) == n;
  }

  lemma DecodePlain(c: char, rest: string)
    requires c != '\\'
    ensures UnescapeUnicode([c] + rest) == Prepend(c, UnescapeUnicode(rest))
  {
    assert ([c] + rest)[1..] == rest;
  }

  lemma EscapeCharDecodesBmp(c: char, rest: string)
    requires 128 <= c as int < 0x10000
    ensures UnescapeUnicode(EscapeChar(c) + rest) == Prepend(c, UnescapeUnicode(rest))
  {
    assert EscapeChar(c) == "\\u" + Hex4(c as int);
    DecodeBmp(c as int, rest);
  }

  lemma EscapeCharDecodesSupplementary(c: char, rest: string)
    requires 0x10000 <= c as int
    ensures UnescapeUnicode(EscapeChar(c) + rest) == Prepend(c, UnescapeUnicode(rest))
  {
    var n := c as int;
    var hi, lo := HighSurrogate(n), LowSurrogate(n);
    Hex4RoundTrip(hi);
    Hex4RoundTrip(lo);
    SurrogatesCombine(n);
    var s := EscapeChar(c) + rest;
    assert s == "\\u" + Hex4(hi) + "\\u" + Hex4(lo) + rest;
    assert s[0] == '\\' && s[1] == 'u' && s[6] == '\\' && s[7] == 'u';
    assert s[2..6] == Hex4(hi);
    assert s[8..12] == Hex4(lo);
    assert s[12..] == rest;
    var v, w := Hex4Value(s[2..6]), Hex4Value(s[8..12]);
    assert v == hi && w == lo;
    var m := 0x10000 + (v - 0xD800) * 0x400 + (w - 0xDC00);
    assert m == n;
    assert UnescapeUnicode(s) == Prepend(m as char, UnescapeUnicode(s[12..]));
  }

  lemma EscapeCharDecodesNarrow(c: char, rest: string)
    requires c as int < 128 && c != '\\'
    ensures UnescapeUnicode(EscapeChar(c) + rest) == Prepend(c, UnescapeUnicode(rest))
  {
    if c == '\n' {
      assert EscapeChar(c) == "\\u" + "000a";
      DecodeControl("000a", 10, rest);
    } else if c == '\r' {
      assert EscapeChar(c) == "\\u" + "000d";
      DecodeControl("000d", 13, rest);
    } else {
      assert EscapeChar(c) == [c];
      DecodePlain(c, rest);
    }
  }

  /** The decoder reads back what escaping one character wrote. */
  lemma EscapeCharDecodes(c: char, rest: string)
    requires c != '\\'
    ensures UnescapeUnicode(EscapeChar(c) + rest) == Prepend(c, UnescapeUnicode(rest))
  {
    if 0x10000 <= c as int {
      EscapeCharDecodesSupplementary(c, rest);
    } else if 128 <= c as int {
      EscapeCharDecodesBmp(c, rest);
    } else {
      EscapeCharDecodesNarrow(c, rest);
    }
  }

  /** Decoding what escapeUnicode wrote gives the original text back, for text without backslashes. */
  lemma {:induction false} UnescapeEscape(s: string)
    requires '\\' !in s
    ensures UnescapeUnicode(Escaped(s)) == Some(s)
    decreases |s|
  {
    if s != [] {
      UnescapeEscape(s[1..]);
      EscapeCharDecodes(s[0], Escaped(s[1..]));
      assert [s[0]] + s[1..] == s;
    }
  }
}
