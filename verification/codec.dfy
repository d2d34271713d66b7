/**
 * The escape codec of src/utils/SerializeUtils.ts: the five escaping replaces
 * `serialize` applies to the minified text (lines 105-114) and the eight
 * unescaping replaces `deserialize` applies to the shielded text (lines 30-45).
 *
 * A `char` here is a Unicode scalar value while JavaScript strings are UTF-16
 * code units: a character above U+FFFF is one `char` but two code units, so
 * escaping it yields two `\uXXXX` escapes, one per surrogate, exactly as the
 * per-code-unit regex does.
 */
module Codec {
  import opened Text
  import opened Minification

  /** A global `replace` whose pattern matches one character at a time. */
  function MapChars(f: char -> string, s: string): string
    decreases |s|
  {
    if s == [] then [] else f(s[0]) + MapChars(f, s[1..])
  }

  lemma {:induction false} MapAppend(f: char -> string, a: string, b: string)
    ensures MapChars(f, a + b) == MapChars(f, a) + MapChars(f, b)
    decreases |a|
  {
    if a == [] {
      assert a + b == b;
    } else {
      assert (a + b)[1..] == a[1..] + b;
      MapAppend(f, a[1..], b);
    }
  }

  /** A replace that maps every character of `s` to itself changes nothing. */
  lemma {:induction false} MapFixed(f: char -> string, s: string)
    requires forall i :: 0 <= i < |s| ==> f(s[i]) == [s[i]]
    ensures MapChars(f, s) == s
    decreases |s|
  {
    if s != [] {
      MapFixed(f, s[1..]);
    }
  }

  // ------------------------------------------------------------ escaping

  /** `replace(/\\/g, "\\\\")` */
  function EscapeBackslash(c: char): string { if c == '\\' then "\\\\" else [c] }

  /** `\u` and the four lower-case hex digits of one UTF-16 code unit. */
  function UnitEscape(u: nat): (r: string)
    requires u < 0x10000
    ensures |r| == 6
  {
    "\\u" + Hex4(u)
  }

  const HighBase: nat := 0xD800
  const LowBase: nat := 0xDC00

  /** The replace of every code unit from U+0080 to U+FFFF: one escape per UTF-16 code unit of `c`. */
  function EscapeUnicode(c: char): string {
    if c as int < 0x80 then [c]
    else if c as int < 0x10000 then UnitEscape(c as int)
    else UnitEscape(HighBase + (c as int - 0x10000) / 0x400) + UnitEscape(LowBase + (c as int - 0x10000) % 0x400)
  }

  /** `replace(/"/g, '\\"')` */
  function EscapeQuote(c: char): string { if c == '"' then "\\\"" else [c] }

  /** `replace(/\//g, "\\/")` */
  function EscapeSlash(c: char): string { if c == '/' then "\\/" else [c] }

  /** `replace(/\n/g, "\\r\\n")`: the four characters backslash, `r`, backslash, `n`. */
  function EscapeNewline(c: char): string { if c == '\n' then "\\r\\n" else [c] }

  /** The `serialized` chain, in the source's order. */
  function Escape(s: string): string {
    MapChars(EscapeNewline, MapChars(EscapeSlash, MapChars(EscapeQuote,
      MapChars(EscapeUnicode, MapChars(EscapeBackslash, s)))))
  }

  /** What the chain does to one character. */
  function EscapeChar(c: char): string {
    if c == '\\' then "\\\\"
    else if c == '"' then "\\\""
    else if c == '/' then "\\/"
    else if c == '\n' then "\\r\\n"
    else EscapeUnicode(c)
  }

  lemma EscapeAppend(a: string, b: string)
    ensures Escape(a + b) == Escape(a) + Escape(b)
  {
    MapAppend(EscapeBackslash, a, b);
    MapAppend(EscapeUnicode, MapChars(EscapeBackslash, a), MapChars(EscapeBackslash, b));
    var u1, u2 := MapChars(EscapeUnicode, MapChars(EscapeBackslash, a)), MapChars(EscapeUnicode, MapChars(EscapeBackslash, b));
    MapAppend(EscapeQuote, u1, u2);
    var q1, q2 := MapChars(EscapeQuote, u1), MapChars(EscapeQuote, u2);
    MapAppend(EscapeSlash, q1, q2);
    MapAppend(EscapeNewline, MapChars(EscapeSlash, q1), MapChars(EscapeSlash, q2));
  }

  /** Characters none of the later steps touch. */
  predicate Inert(c: char) { c as int < 0x80 && c != '"' && c != '/' && c != '\n' }

  lemma LaterStepsFix(t: string)
    requires AllInert(t)
    ensures MapChars(EscapeNewline, MapChars(EscapeSlash, MapChars(EscapeQuote, t))) == t
  {
    MapFixed(EscapeQuote, t);
    MapFixed(EscapeSlash, t);
    MapFixed(EscapeNewline, t);
  }

  predicate AllInert(t: string) { forall i :: 0 <= i < |t| ==> Inert(t[i]) }

  lemma UnitEscapeInert(u: nat)
    requires u < 0x10000
    ensures AllInert(UnitEscape(u))
  {
    var h := Hex4(u);
    assert forall i :: 2 <= i < 6 ==> UnitEscape(u)[i] == h[i - 2];
  }

  lemma EscapeUnicodeInert(c: char)
    requires c as int >= 0x80
    ensures AllInert(EscapeUnicode(c))
  {
    if c as int >= 0x10000 {
      var a := UnitEscape(HighBase + (c as int - 0x10000) / 0x400);
      var b := UnitEscape(LowBase + (c as int - 0x10000) % 0x400);
      UnitEscapeInert(HighBase + (c as int - 0x10000) / 0x400);
      UnitEscapeInert(LowBase + (c as int - 0x10000) % 0x400);
      assert forall i :: 6 <= i < 12 ==> (a + b)[i] == b[i - 6];
    } else {
      UnitEscapeInert(c as int);
    }
  }

  lemma MapOne(f: char -> string, c: char)
    ensures MapChars(f, [c]) == f(c)
  {
    assert [c][1..] == [];
    assert f(c) + [] == f(c);
  }

  lemma EscapeOne(c: char)
    ensures Escape([c]) == EscapeChar(c)
  {
    var b := MapChars(EscapeBackslash, [c]);
    MapOne(EscapeBackslash, c);
    if c == '\\' {
      MapFixed(EscapeUnicode, b);
      LaterStepsFix(b);
    } else {
      var u := MapChars(EscapeUnicode, [c]);
      MapOne(EscapeUnicode, c);
      if c as int < 0x80 {
        assert u == [c];
        if c == '"' {
          MapOne(EscapeQuote, c);
          MapFixed(EscapeSlash, "\\\"");
          MapFixed(EscapeNewline, "\\\"");
        } else if c == '/' {
          MapOne(EscapeQuote, c);
          MapOne(EscapeSlash, c);
          MapFixed(EscapeNewline, "\\/");
        } else if c == '\n' {
          MapOne(EscapeQuote, c);
          MapOne(EscapeSlash, c);
          MapOne(EscapeNewline, c);
        } else {
          LaterStepsFix(u);
        }
      } else {
        EscapeUnicodeInert(c);
        LaterStepsFix(u);
      }
    }
  }

  /** The five chained replaces act character by character: each character
      becomes `EscapeChar` of it. */
  lemma {:induction false} EscapeByChar(s: string)
    ensures Escape(s) == MapChars(EscapeChar, s)
    decreases |s|
  {
    if s == [] {
    } else {
      assert s == [s[0]] + s[1..];
      EscapeAppend([s[0]], s[1..]);
      EscapeOne(s[0]);
      EscapeByChar(s[1..]);
    }
  }

  /** Every character of the escaped text is ASCII: nothing above U+007F is left. */
  lemma {:induction false} EscapeAscii(s: string)
    ensures forall i :: 0 <= i < |Escape(s)| ==> Escape(s)[i] as int < 0x80
  {
    EscapeByChar(s);
    MapCharsAscii(s);
  }

  predicate Ascii(t: string) { forall i :: 0 <= i < |t| ==> t[i] as int < 0x80 }

  lemma AsciiAppend(t: string, r: string)
    requires Ascii(t) && Ascii(r)
    ensures Ascii(t + r)
  {
    assert forall i :: |t| <= i < |t| + |r| ==> (t + r)[i] == r[i - |t|];
  }

  lemma EscapeCharAscii(c: char)
    ensures Ascii(EscapeChar(c))
  {
    if c as int >= 0x80 && c != '\\' && c != '"' && c != '/' && c != '\n' {
      EscapeUnicodeInert(c);
    }
  }

  lemma {:induction false} MapCharsAscii(s: string)
    ensures Ascii(MapChars(EscapeChar, s))
    decreases |s|
  {
    if s != [] {
      MapCharsAscii(s[1..]);
      EscapeCharAscii(s[0]);
      AsciiAppend(EscapeChar(s[0]), MapChars(EscapeChar, s[1..]));
    }
  }

  // ------------------------------------------------------------ unescaping

  /** `replace(/ab/g, c)` for a two-character pattern: leftmost matches, no overlap. */
  function ReplacePair(s: string, a: char, b: char, c: char): string
    decreases |s|
  {
    if |s| < 2 then s
    else if s[0] == a && s[1] == b then [c] + ReplacePair(s[2..], a, b, c)
    else [s[0]] + ReplacePair(s[1..], a, b, c)
  }

  /** `replace(/\n/g, "\n")` (line 33): maps the character to itself. */
  function SameNewline(c: char): string { if c == '\n' then "\n" else [c] }

  /** `replace(/\r/g, "\r")` (line 34): maps the character to itself. */
  function SameReturn(c: char): string { if c == '\r' then "\r" else [c] }

  predicate IsHighSurrogate(v: int) { 0xD800 <= v < 0xDC00 }
  predicate IsLowSurrogate(v: int) { 0xDC00 <= v < 0xE000 }

  /** `\u` and four hex digits (either case) at offset `i`. */
  predicate UnitEscapeAt(s: string, i: nat) {
    i + 6 <= |s| && s[i] == '\\' && s[i + 1] == 'u'
    && IsHexDigit(s[i + 2]) && IsHexDigit(s[i + 3]) && IsHexDigit(s[i + 4]) && IsHexDigit(s[i + 5])
  }

  function UnitValue(s: string, i: nat): (v: nat)
    requires UnitEscapeAt(s, i)
    ensures v < 0x10000
  {
    Hex4Value(s[i + 2..i + 6])
  }

  /** The character a surrogate pair encodes. */
  function Combine(hi: int, lo: int): char
    requires IsHighSurrogate(hi) && IsLowSurrogate(lo)
  {
    (0x10000 + (hi - HighBase) * 0x400 + (lo - LowBase)) as char
  }

  /**
   * `replace(/\\u([0-9a-fA-F]{4})/g, ...)` with `String.fromCharCode`: each escape
   * becomes its code unit. A high-surrogate escape directly followed by a
   * low-surrogate escape becomes the one character the pair encodes; an escape of
   * an unpaired surrogate, which no `char` can hold, is left as it is.
   */
  function DecodeUnits(s: string): string
    decreases |s|
  {
    if s == [] then []
    else if UnitEscapeAt(s, 0) && IsHighSurrogate(UnitValue(s, 0))
      && UnitEscapeAt(s, 6) && IsLowSurrogate(UnitValue(s, 6)) then
      [Combine(UnitValue(s, 0), UnitValue(s, 6))] + DecodeUnits(s[12..])
    else if UnitEscapeAt(s, 0) && !IsHighSurrogate(UnitValue(s, 0)) && !IsLowSurrogate(UnitValue(s, 0)) then
      [UnitValue(s, 0) as char] + DecodeUnits(s[6..])
    else [s[0]] + DecodeUnits(s[1..])
  }

  /** The `unescaped` chain, in the source's order. */
  function Unescape(s: string): string {
    ReplacePair(DecodeUnits(
      ReplacePair(ReplacePair(ReplacePair(
        MapChars(SameReturn, MapChars(SameNewline, ReplacePair(s, '\r', '\n', '\n'))),
        '\\', '/', '/'), '\\', '"', '"'), '\\', '\'', '\'')),
      '\\', '\\', '\\')
  }

  /** Lines 33 and 34 change nothing. */
  lemma SameStepsFix(s: string)
    ensures MapChars(SameReturn, MapChars(SameNewline, s)) == s
  {
    MapFixed(SameNewline, s);
    MapFixed(SameReturn, s);
  }

  /** A character that starts no escape is copied. */
  lemma DecodeCopies(s: string)
    requires s != [] && !UnitEscapeAt(s, 0)
    ensures DecodeUnits(s) == [s[0]] + DecodeUnits(s[1..])
  {
  }

  /** A `\u` without four hex digits after it is left as it is. */
  lemma DecodeUnmatched(x: string)
    requires !(|x| >= 4 && IsHexDigit(x[0]) && IsHexDigit(x[1]) && IsHexDigit(x[2]) && IsHexDigit(x[3]))
    ensures DecodeUnits(['\\', 'u'] + x) == ['\\', 'u'] + DecodeUnits(x)
  {
    var t := ['u'] + x;
    var s := ['\\'] + t;
    ConsPair('\\', 'u', x);
    assert !UnitEscapeAt(s, 0) by {
      if |s| >= 6 {
        assert s[2] == x[0] && s[3] == x[1] && s[4] == x[2] && s[5] == x[3];
      }
    }
    DecodeCopies(s);
    DecodeCopies(t);
    ConsPair('\\', 'u', DecodeUnits(x));
  }

  /** Two characters in front of a text, taken apart one at a time. */
  lemma ConsPair(a: char, b: char, x: string)
    ensures [a, b] + x == [a] + ([b] + x)
    ensures ([a] + ([b] + x))[1..] == [b] + x
    ensures ([b] + x)[1..] == x
  {
    assert [a, b] == [a] + [b];
  }

  /** Text without any `a`-then-`b` pair comes through a pair replace unchanged. */
  lemma {:induction false} ReplacePairNone(s: string, a: char, b: char, c: char)
    requires forall i :: 0 <= i < |s| - 1 ==> !(s[i] == a && s[i + 1] == b)
    ensures ReplacePair(s, a, b, c) == s
    decreases |s|
  {
    if |s| >= 2 {
      ReplacePairNone(s[1..], a, b, c);
    }
  }

  /** A piece holding no pair and not ending in `a` is copied, whatever follows it. */
  lemma {:induction false} ReplacePairSkip(t: string, x: string, a: char, b: char, c: char)
    requires forall i :: 0 <= i < |t| - 1 ==> !(t[i] == a && t[i + 1] == b)
    requires t == [] || t[|t| - 1] != a
    ensures ReplacePair(t + x, a, b, c) == t + ReplacePair(x, a, b, c)
    decreases |t|
  {
    if t == [] {
      assert t + x == x;
    } else {
      assert (t + x)[1..] == t[1..] + x;
      if |t| == 1 && x != [] {
        assert t[1..] == [];
      } else if |t| >= 2 {
        ReplacePairSkip(t[1..], x, a, b, c);
      }
    }
  }

  // ------------------------------------------------------------ the codec round trip

  /** A character the round trip recovers: backslashes would be read back as
      escapes, and a newline is escaped to the four characters `\r\n`, which the
      unescaper does not read back. */
  predicate Plain(c: char) { c != '\\' && c != '\n' }

  /** Every backslash starts a `\u`, and the text does not end in one. */
  predicate UnicodeShaped(t: string) {
    (forall i :: 0 <= i < |t| - 1 && t[i] == '\\' ==> t[i + 1] == 'u')
    && (t == [] || t[|t| - 1] != '\\')
  }

  lemma UnitEscapeShaped(u: nat)
    requires u < 0x10000
    ensures UnicodeShaped(UnitEscape(u))
  {
    var h := Hex4(u);
    assert forall i :: 2 <= i < 6 ==> UnitEscape(u)[i] == h[i - 2];
  }

  lemma EscapeCharShaped(c: char)
    requires Plain(c) && c != '/' && c != '"'
    ensures UnicodeShaped(EscapeChar(c))
  {
    if c as int >= 0x10000 {
      var a := UnitEscape(HighBase + (c as int - 0x10000) / 0x400);
      var b := UnitEscape(LowBase + (c as int - 0x10000) % 0x400);
      UnitEscapeShaped(HighBase + (c as int - 0x10000) / 0x400);
      UnitEscapeShaped(LowBase + (c as int - 0x10000) % 0x400);
      assert forall i :: 0 <= i < 6 ==> (a + b)[i] == a[i];
      assert forall i :: 6 <= i < 12 ==> (a + b)[i] == b[i - 6];
    } else if c as int >= 0x80 {
      UnitEscapeShaped(c as int);
    }
  }

  /** A `\u`-shaped piece is copied by the three pair replaces that undo `\/`, `\"` and `\'`. */
  lemma ShapedSkip(t: string, x: string, b: char)
    requires UnicodeShaped(t) && b != 'u'
    ensures ReplacePair(t + x, '\\', b, b) == t + ReplacePair(x, '\\', b, b)
  {
    ReplacePairSkip(t, x, '\\', b, b);
  }

  /** The escaped text once `\/` is undone, character by character. */
  function AfterSlash(c: char): string { if c == '/' then "/" else EscapeChar(c) }

  /** The escaped text once `\"` (and `\'`) are undone, character by character. */
  function AfterQuote(c: char): string { if c == '/' || c == '"' then [c] else EscapeChar(c) }

  lemma SlashToken(c: char, x: string)
    requires Plain(c)
    ensures ReplacePair(EscapeChar(c) + x, '\\', '/', '/') == AfterSlash(c) + ReplacePair(x, '\\', '/', '/')
  {
    if c == '/' {
      assert (EscapeChar(c) + x)[2..] == x;
    } else if c == '"' {
      ReplacePairSkip(EscapeChar(c), x, '\\', '/', '/');
    } else {
      EscapeCharShaped(c);
      ShapedSkip(EscapeChar(c), x, '/');
    }
  }

  lemma QuoteToken(c: char, x: string)
    requires Plain(c)
    ensures ReplacePair(AfterSlash(c) + x, '\\', '"', '"') == AfterQuote(c) + ReplacePair(x, '\\', '"', '"')
  {
    if c == '"' {
      assert (AfterSlash(c) + x)[2..] == x;
    } else if c == '/' {
      ReplacePairSkip(AfterSlash(c), x, '\\', '"', '"');
    } else {
      EscapeCharShaped(c);
      ShapedSkip(EscapeChar(c), x, '"');
    }
  }

  lemma ApostropheToken(c: char, x: string)
    requires Plain(c)
    ensures ReplacePair(AfterQuote(c) + x, '\\', '\'', '\'') == AfterQuote(c) + ReplacePair(x, '\\', '\'', '\'')
  {
    if c == '"' || c == '/' {
      ReplacePairSkip(AfterQuote(c), x, '\\', '\'', '\'');
    } else {
      EscapeCharShaped(c);
      ShapedSkip(EscapeChar(c), x, '\'');
    }
  }

  lemma {:induction false} SlashAll(m: string)
    requires forall i :: 0 <= i < |m| ==> Plain(m[i])
    ensures ReplacePair(MapChars(EscapeChar, m), '\\', '/', '/') == MapChars(AfterSlash, m)
    decreases |m|
  {
    if m != [] {
      SlashToken(m[0], MapChars(EscapeChar, m[1..]));
      SlashAll(m[1..]);
    }
  }

  lemma {:induction false} QuoteAll(m: string)
    requires forall i :: 0 <= i < |m| ==> Plain(m[i])
    ensures ReplacePair(MapChars(AfterSlash, m), '\\', '"', '"') == MapChars(AfterQuote, m)
    decreases |m|
  {
    if m != [] {
      QuoteToken(m[0], MapChars(AfterSlash, m[1..]));
      QuoteAll(m[1..]);
    }
  }

  lemma {:induction false} ApostropheAll(m: string)
    requires forall i :: 0 <= i < |m| ==> Plain(m[i])
    ensures ReplacePair(MapChars(AfterQuote, m), '\\', '\'', '\'') == MapChars(AfterQuote, m)
    decreases |m|
  {
    if m != [] {
      ApostropheToken(m[0], MapChars(AfterQuote, m[1..]));
      ApostropheAll(m[1..]);
    }
  }

  /** An escape written by `UnitEscape` reads back as the same code unit. */
  lemma UnitEscapeRead(a: string, u: nat, x: string)
    requires u < 0x10000
    ensures UnitEscapeAt(a + UnitEscape(u) + x, |a|)
    ensures UnitValue(a + UnitEscape(u) + x, |a|) == u
  {
    var s := a + UnitEscape(u) + x;
    var h := Hex4(u);
    assert s[|a| + 2..|a| + 6] == h;
    assert forall i :: 0 <= i < 4 ==> s[|a| + 2 + i] == h[i];
    Hex4RoundTrip(u);
  }

  lemma DecodeSingle(s: string)
    requires UnitEscapeAt(s, 0) && !IsHighSurrogate(UnitValue(s, 0)) && !IsLowSurrogate(UnitValue(s, 0))
    ensures DecodeUnits(s) == [UnitValue(s, 0) as char] + DecodeUnits(s[6..])
  {
  }

  lemma DecodePair(s: string)
    requires UnitEscapeAt(s, 0) && IsHighSurrogate(UnitValue(s, 0))
    requires UnitEscapeAt(s, 6) && IsLowSurrogate(UnitValue(s, 6))
    ensures DecodeUnits(s) == [Combine(UnitValue(s, 0), UnitValue(s, 6))] + DecodeUnits(s[12..])
  {
  }

  lemma DecodeBmpToken(c: char, x: string)
    requires 0x80 <= c as int < 0x10000
    ensures DecodeUnits(UnitEscape(c as int) + x) == [c] + DecodeUnits(x)
  {
    var s := UnitEscape(c as int) + x;
    assert s == [] + UnitEscape(c as int) + x;
    UnitEscapeRead([], c as int, x);
    DecodeSingle(s);
    assert s[6..] == x;
  }

  /** The surrogate pair of a character above U+FFFF combines back to it. */
  lemma CombineSplit(c: char)
    requires c as int >= 0x10000
    ensures IsHighSurrogate(HighBase + (c as int - 0x10000) / 0x400)
    ensures IsLowSurrogate(LowBase + (c as int - 0x10000) % 0x400)
    ensures Combine(HighBase + (c as int - 0x10000) / 0x400, LowBase + (c as int - 0x10000) % 0x400) == c
  {
  }

  lemma DecodeAstralToken(c: char, x: string)
    requires c as int >= 0x10000
    ensures DecodeUnits(EscapeUnicode(c) + x) == [c] + DecodeUnits(x)
  {
    CombineSplit(c);
    DecodeSurrogates(HighBase + (c as int - 0x10000) / 0x400, LowBase + (c as int - 0x10000) % 0x400, x);
  }

  /** Two escapes holding a surrogate pair read back as the character they combine to. */
  lemma DecodeSurrogates(h: nat, l: nat, x: string)
    requires IsHighSurrogate(h) && IsLowSurrogate(l)
    ensures DecodeUnits(UnitEscape(h) + UnitEscape(l) + x) == [Combine(h, l)] + DecodeUnits(x)
  {
    var a, b := UnitEscape(h), UnitEscape(l);
    var s := a + b + x;
    assert UnitEscapeAt(s, 0) && UnitValue(s, 0) == h by {
      assert s == [] + a + (b + x);
      UnitEscapeRead([], h, b + x);
    }
    assert UnitEscapeAt(s, 6) && UnitValue(s, 6) == l by {
      UnitEscapeRead(a, l, x);
    }
    DecodePair(s);
    assert s[12..] == x;
  }

  lemma DecodeToken(c: char, x: string)
    requires Plain(c)
    ensures DecodeUnits(AfterQuote(c) + x) == [c] + DecodeUnits(x)
  {
    if c as int < 0x80 || c == '/' || c == '"' {
      var s := AfterQuote(c) + x;
      assert AfterQuote(c) == [c];
      DecodeCopies(s);
      assert s[1..] == x;
    } else if c as int < 0x10000 {
      DecodeBmpToken(c, x);
    } else {
      DecodeAstralToken(c, x);
    }
  }

  lemma {:induction false} DecodeAll(m: string)
    requires forall i :: 0 <= i < |m| ==> Plain(m[i])
    ensures DecodeUnits(MapChars(AfterQuote, m)) == m
    decreases |m|
  {
    if m != [] {
      DecodeToken(m[0], MapChars(AfterQuote, m[1..]));
      DecodeAll(m[1..]);
      assert m == [m[0]] + m[1..];
    }
  }

  lemma {:induction false} EscapedLacksNewline(m: string)
    ensures Lacks(MapChars(EscapeChar, m), '\n')
    decreases |m|
  {
    if m != [] {
      EscapedLacksNewline(m[1..]);
      EscapeCharNoNewline(m[0]);
      LacksAppend(EscapeChar(m[0]), MapChars(EscapeChar, m[1..]), '\n');
    }
  }

  lemma EscapeCharNoNewline(c: char)
    ensures Lacks(EscapeChar(c), '\n')
  {
    if c as int >= 0x80 {
      EscapeUnicodeInert(c);
    }
  }

  /** Unescaping undoes escaping for text with no backslash and no line feed;
      characters above U+FFFF come back from their surrogate-pair escapes. */
  lemma UnescapeEscape(m: string)
    requires Lacks(m, '\\') && Lacks(m, '\n')
    ensures Unescape(Escape(m)) == m
  {
    assert forall i :: 0 <= i < |m| ==> Plain(m[i]);
    var e := Escape(m);
    EscapeByChar(m);
    EscapedLacksNewline(m);
    ReplacePairNone(e, '\r', '\n', '\n');
    SameStepsFix(e);
    SlashAll(m);
    QuoteAll(m);
    ApostropheAll(m);
    DecodeAll(m);
    ReplacePairNone(m, '\\', '\\', '\\');
  }

  // ------------------------------------------------------------ the chain as written loses escaped backslashes

  /** The text `\u0041`: a backslash followed by what reads as a code-unit escape. */
  const BackslashU: string := ['\\', 'u', '0', '0', '4', '1']

  /** What the escape chain makes of it: the backslash doubled, the rest kept. */
  const EscapedBackslashU: string := ['\\', '\\', 'u', '0', '0', '4', '1']

  lemma EscapeBackslashU()
    ensures Escape(BackslashU) == EscapedBackslashU
  {
    var m := BackslashU;
    EscapeByChar(m);
    MapFixed(EscapeChar, m[1..]);
    assert m == [m[0]] + m[1..];
    assert EscapedBackslashU == "\\\\" + m[1..];
  }

  /** The `\u` step reads the second backslash and what follows it as `A`. */
  lemma DecodeEscapedBackslashU()
    ensures DecodeUnits(EscapedBackslashU) == ['\\', 'A']
  {
    var e := EscapedBackslashU;
    var t := e[1..];
    assert !UnitEscapeAt(e, 0);
    assert t == BackslashU;
    assert UnitEscapeAt(t, 0);
    assert t[2..6] == "0041";
    assert UnitValue(t, 0) == 0x41;
    assert t[6..] == [];
    assert DecodeUnits(t) == ['A'];
  }

  /**
   * Escaping doubles the backslash of `\u0041`, but the unescape chain reads
   * `\u0041` before it undoes `\\`, so the text comes back as backslash and `A`.
   */
  lemma EscapedBackslashLost()
    ensures Unescape(Escape(BackslashU)) == ['\\', 'A']
    ensures Unescape(Escape(BackslashU)) != BackslashU
  {
    EscapeBackslashU();
    UnescapeEscapedBackslashU();
  }

  /** No backslash in the escaped text is followed by `/`, `"` or `'`, and no `\r` by a line feed. */
  lemma NoPairInEscapedBackslashU(a: char, b: char)
    requires (a == '\r' && b == '\n') || (a == '\\' && (b == '/' || b == '"' || b == '\''))
    ensures ReplacePair(EscapedBackslashU, a, b, b) == EscapedBackslashU
  {
    var e := EscapedBackslashU;
    assert forall j :: 1 <= j < |e| ==> e[j] == '\\' || e[j] == 'u' || IsHexDigit(e[j]);
    ReplacePairNone(e, a, b, b);
  }

  /** The pair replaces before and after the `\u` step find nothing to replace. */
  lemma UnescapeEscapedBackslashU()
    ensures Unescape(EscapedBackslashU) == ['\\', 'A']
  {
    var e := EscapedBackslashU;
    NoPairInEscapedBackslashU('\r', '\n');
    SameStepsFix(e);
    NoPairInEscapedBackslashU('\\', '/');
    NoPairInEscapedBackslashU('\\', '"');
    NoPairInEscapedBackslashU('\\', '\'');
    DecodeEscapedBackslashU();
    ReplacePairNone(['\\', 'A'], '\\', '\\', '\\');
  }

  // ------------------------------------------------------------ unescaping as intended

  /** The two-character escapes `\\`, `\/`, `\"` and `\'` stand for their second character. */
  predicate SimpleEscape(c: char) { c == '\\' || c == '/' || c == '"' || c == '\'' }

  /** The four characters `\r\n` the escape writes for a line feed. */
  predicate NewlineEscapeAt(s: string) {
    |s| >= 4 && s[0] == '\\' && s[1] == 'r' && s[2] == '\\' && s[3] == 'n'
  }

  /**
   * Every escape the `serialized` chain writes, read back in one left-to-right
   * scan: an escape is consumed whole, so the second backslash of `\\` can no
   * longer start another escape. Anything else is copied.
   */
  function ReadEscapes(s: string): string
    decreases |s|
  {
    if s == [] then []
    else if s[0] != '\\' || |s| == 1 then [s[0]] + ReadEscapes(s[1..])
    else if SimpleEscape(s[1]) then [s[1]] + ReadEscapes(s[2..])
    else if NewlineEscapeAt(s) then "\n" + ReadEscapes(s[4..])
    else if UnitEscapeAt(s, 0) && IsHighSurrogate(UnitValue(s, 0))
      && UnitEscapeAt(s, 6) && IsLowSurrogate(UnitValue(s, 6)) then
      [Combine(UnitValue(s, 0), UnitValue(s, 6))] + ReadEscapes(s[12..])
    else if UnitEscapeAt(s, 0) && !IsHighSurrogate(UnitValue(s, 0)) && !IsLowSurrogate(UnitValue(s, 0)) then
      [UnitValue(s, 0) as char] + ReadEscapes(s[6..])
    else [s[0]] + ReadEscapes(s[1..])
  }

  /** Unescaping as intended: line endings normalized (line 31), then one scan over the escapes. */
  function UnescapeScan(s: string): string {
    ReadEscapes(ReplacePair(s, '\r', '\n', '\n'))
  }

  /** A two-character escape reads back as its second character. */
  lemma ReadSimple(c: char, x: string)
    requires SimpleEscape(c)
    ensures ReadEscapes(['\\', c] + x) == [c] + ReadEscapes(x)
  {
    assert (['\\', c] + x)[2..] == x;
  }

  lemma ReadNewline(x: string)
    ensures ReadEscapes("\\r\\n" + x) == "\n" + ReadEscapes(x)
  {
    var s := "\\r\\n" + x;
    assert NewlineEscapeAt(s);
    assert s[4..] == x;
  }

  lemma ReadBmp(c: char, x: string)
    requires 0x80 <= c as int < 0x10000
    ensures ReadEscapes(UnitEscape(c as int) + x) == [c] + ReadEscapes(x)
  {
    var s := UnitEscape(c as int) + x;
    assert s == [] + UnitEscape(c as int) + x;
    UnitEscapeRead([], c as int, x);
    assert s[1] == 'u';
    assert s[6..] == x;
  }

  lemma ReadSurrogates(h: nat, l: nat, x: string)
    requires IsHighSurrogate(h) && IsLowSurrogate(l)
    ensures ReadEscapes(UnitEscape(h) + UnitEscape(l) + x) == [Combine(h, l)] + ReadEscapes(x)
  {
    var a, b := UnitEscape(h), UnitEscape(l);
    var s := a + b + x;
    assert UnitEscapeAt(s, 0) && UnitValue(s, 0) == h by {
      assert s == [] + a + (b + x);
      UnitEscapeRead([], h, b + x);
    }
    assert UnitEscapeAt(s, 6) && UnitValue(s, 6) == l by {
      UnitEscapeRead(a, l, x);
    }
    assert s[1] == 'u';
    assert s[12..] == x;
  }

  /** Each character's escape reads back as that character, whatever follows it. */
  lemma ReadToken(c: char, x: string)
    ensures ReadEscapes(EscapeChar(c) + x) == [c] + ReadEscapes(x)
  {
    if c == '\\' || c == '"' || c == '/' {
      assert EscapeChar(c) + x == ['\\', c] + x;
      ReadSimple(c, x);
    } else if c == '\n' {
      ReadNewline(x);
    } else if c as int < 0x80 {
      var s := EscapeChar(c) + x;
      assert EscapeChar(c) == [c];
      assert s[1..] == x;
    } else if c as int < 0x10000 {
      ReadBmp(c, x);
    } else {
      CombineSplit(c);
      ReadSurrogates(HighBase + (c as int - 0x10000) / 0x400, LowBase + (c as int - 0x10000) % 0x400, x);
    }
  }

  lemma {:induction false} ReadAll(m: string)
    ensures ReadEscapes(MapChars(EscapeChar, m)) == m
    decreases |m|
  {
    if m != [] {
      ReadToken(m[0], MapChars(EscapeChar, m[1..]));
      ReadAll(m[1..]);
      assert m == [m[0]] + m[1..];
    }
  }

  /** The intended unescape undoes the escape for every text. */
  lemma UnescapeScanEscape(m: string)
    ensures UnescapeScan(Escape(m)) == m
  {
    var e := Escape(m);
    EscapeByChar(m);
    EscapedLacksNewline(m);
    ReplacePairNone(e, '\r', '\n', '\n');
    ReadAll(m);
  }
}
