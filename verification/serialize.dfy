/**
 * `serialize` and `deserialize` (src/utils/SerializeUtils.ts): shield the
 * directives, transform the rest, put the directives back verbatim. Each is
 * modelled twice: as written, with the single global restore replace and the
 * unescape chain of lines 30-45, and as intended, with the nested restoration
 * and the one-scan unescape (see the two findings these correct).
 */
module Serialization {
  import opened Text
  import opened Shielding
  import opened ShieldProofs
  import opened Minification
  import opened Codec
  import opened OneDirective

  /** No table entry holds placeholder text, so nothing was captured inside
      an earlier capture. */
  predicate Unnested(blocks: seq<string>) {
    forall k :: 0 <= k < |blocks| ==> !Contains(blocks[k], Prefix)
  }

  /**
   * `serialize(html)` as written (lines 60-140): the table entries are put
   * back by one global replace (lines 117-125). The optional console
   * statistics are not modelled.
   */
  function SerializeAsWritten(html: string): (r: string)
    ensures Lacks(html, '{') && Lacks(html, '_') ==> r == Escape(Minify(html))
  {
    PlainSerialize(html);
    RestoreFlat(Escape(Minify(Shield(html).text)), Shield(html).blocks)
  }

  /** `serialize(html)` with each entry restored with the entries before it;
      the two agree unless an entry holds another entry's placeholder. */
  function Serialize(html: string): (r: string)
    ensures Lacks(html, '{') && Lacks(html, '_') ==> r == Escape(Minify(html))
    ensures Unnested(Shield(html).blocks) ==> r == SerializeAsWritten(html)
  {
    PlainSerialize(html);
    UnnestedAgrees(Escape(Minify(Shield(html).text)), Shield(html).blocks);
    Restore(Escape(Minify(Shield(html).text)), Shield(html).blocks)
  }

  /** `deserialize(htmlString)` as written (lines 2-57): the unescape chain of
      lines 30-45 and one global restore replace. */
  function DeserializeAsWritten(s: string): (r: string)
    ensures Lacks(s, '{') && Lacks(s, '_') && Lacks(s, '\\') ==> r == ReplacePair(s, '\r', '\n', '\n')
  {
    PlainDeserialize(s);
    RestoreFlat(Unescape(Shield(s).text), Shield(s).blocks)
  }

  /**
   * `deserialize(htmlString)` with the unescaping read in one scan
   * (`UnescapeScan`) rather than by the chain of lines 30-45, which loses
   * escaped backslashes (`Codec.EscapedBackslashLost`), and with the nested
   * restoration. Without a backslash outside the directives and without
   * nesting, it is the function as written.
   */
  function Deserialize(s: string): (r: string)
    ensures Lacks(s, '{') && Lacks(s, '_') && Lacks(s, '\\') ==> r == ReplacePair(s, '\r', '\n', '\n')
    ensures Lacks(Shield(s).text, '\\') && Unnested(Shield(s).blocks) ==> r == DeserializeAsWritten(s)
  {
    PlainDeserialize(s);
    UnescapeWithoutBackslash(Shield(s).text);
    UnnestedAgrees(UnescapeScan(Shield(s).text), Shield(s).blocks);
    Restore(UnescapeScan(Shield(s).text), Shield(s).blocks)
  }

  lemma UnnestedAgrees(t: string, blocks: seq<string>)
    ensures Unnested(blocks) ==> RestoreFlat(t, blocks) == Restore(t, blocks)
  {
    if Unnested(blocks) {
      FlatRestoreAgrees(t, blocks);
    }
  }

  /** Without `{` and `_`, serializing is minifying then escaping, whichever restoration runs. */
  lemma PlainSerialize(h: string)
    ensures Lacks(h, '{') && Lacks(h, '_') ==>
      var e := Escape(Minify(Shield(h).text));
      RestoreFlat(e, Shield(h).blocks) == Escape(Minify(h)) && Restore(e, Shield(h).blocks) == Escape(Minify(h))
  {
    if Lacks(h, '{') && Lacks(h, '_') {
      PlainText(h, []);
      MinifyEscapeLacks(h, '{');
      MinifyEscapeLacks(h, '_');
      NoUnderscore(Escape(Minify(h)));
      RestoreWithoutPrefix(Escape(Minify(h)), []);
    }
  }

  /** A pair replace brings in no character other than its replacement. */
  lemma {:induction false} ReplacePairLacks(s: string, a: char, b: char, c: char, x: char)
    requires Lacks(s, x) && c != x
    ensures Lacks(ReplacePair(s, a, b, c), x)
    decreases |s|
  {
    if |s| >= 2 {
      if s[0] == a && s[1] == b {
        LacksSlice(s, x, 2, |s|);
        assert s[2..|s|] == s[2..];
        ReplacePairLacks(s[2..], a, b, c, x);
        LacksCons(c, ReplacePair(s[2..], a, b, c), x);
      } else {
        LacksSlice(s, x, 1, |s|);
        assert s[1..|s|] == s[1..];
        ReplacePairLacks(s[1..], a, b, c, x);
        LacksCons(s[0], ReplacePair(s[1..], a, b, c), x);
      }
    }
  }

  /** Without a backslash, both unescapes only turn `\r\n` into `\n`. */
  lemma UnescapeWithoutBackslash(t: string)
    ensures Lacks(t, '\\') ==> Unescape(t) == ReplacePair(t, '\r', '\n', '\n') && UnescapeScan(t) == ReplacePair(t, '\r', '\n', '\n')
  {
    if Lacks(t, '\\') {
      var u := ReplacePair(t, '\r', '\n', '\n');
      ReplacePairLacks(t, '\r', '\n', '\n', '\\');
      SameStepsFix(u);
      ReplacePairNone(u, '\\', '/', '/');
      ReplacePairNone(u, '\\', '"', '"');
      ReplacePairNone(u, '\\', '\'', '\'');
      DecodeWithoutBackslash(u);
      ReplacePairNone(u, '\\', '\\', '\\');
      ReadWithoutBackslash(u);
    }
  }

  /** Without `{`, `_` and `\`, deserializing only turns `\r\n` into `\n`, whichever version runs. */
  lemma PlainDeserialize(s: string)
    ensures Lacks(s, '{') && Lacks(s, '_') && Lacks(s, '\\') ==>
      var u := ReplacePair(s, '\r', '\n', '\n');
      RestoreFlat(Unescape(Shield(s).text), Shield(s).blocks) == u
      && Restore(UnescapeScan(Shield(s).text), Shield(s).blocks) == u
  {
    if Lacks(s, '{') && Lacks(s, '_') && Lacks(s, '\\') {
      PlainText(s, []);
      UnescapeWithoutBackslash(s);
      var u := ReplacePair(s, '\r', '\n', '\n');
      ReplacePairLacks(s, '\r', '\n', '\n', '_');
      NoUnderscore(u);
      RestoreWithoutPrefix(u, []);
    }
  }

  // ------------------------------------------------------------ placeholders pass through

  lemma {:induction false} DecodeWithoutBackslash(s: string)
    requires Lacks(s, '\\')
    ensures DecodeUnits(s) == s
    decreases |s|
  {
    if s != [] {
      DecodeCopies(s);
      DecodeWithoutBackslash(s[1..]);
    }
  }

  lemma {:induction false} ReadWithoutBackslash(s: string)
    requires Lacks(s, '\\')
    ensures ReadEscapes(s) == s
    decreases |s|
  {
    if s != [] {
      ReadWithoutBackslash(s[1..]);
    }
  }

  /** Word characters are left alone by escaping and by unescaping. */
  lemma WordTextInert(s: string)
    requires forall i :: 0 <= i < |s| ==> IsWordChar(s[i])
    ensures Escape(s) == s && Unescape(s) == s && UnescapeScan(s) == s
  {
    EscapeByChar(s);
    MapFixed(EscapeChar, s);
    ReplacePairNone(s, '\r', '\n', '\n');
    SameStepsFix(s);
    ReplacePairNone(s, '\\', '/', '/');
    ReplacePairNone(s, '\\', '"', '"');
    ReplacePairNone(s, '\\', '\'', '\'');
    DecodeWithoutBackslash(s);
    ReplacePairNone(s, '\\', '\\', '\\');
    ReadWithoutBackslash(s);
  }

  /** So a placeholder survives both chains unchanged and is still found by the restoration. */
  lemma PlaceholderInert(k: nat)
    ensures Escape(Placeholder(k)) == Placeholder(k)
    ensures Unescape(Placeholder(k)) == Placeholder(k) && UnescapeScan(Placeholder(k)) == Placeholder(k)
  {
    WordTextInert(Placeholder(k));
  }

  /** Escaping a text puts a placeholder inside it through untouched. */
  lemma EscapeAroundPlaceholder(a: string, k: nat, b: string)
    ensures Escape(a + Placeholder(k) + b) == Escape(a) + Placeholder(k) + Escape(b)
  {
    EscapeAppend(a + Placeholder(k), b);
    EscapeAppend(a, Placeholder(k));
    PlaceholderInert(k);
  }

  // ------------------------------------------------------------ round trips

  /** Characters escaping writes besides the escaped character itself. */
  predicate EscapeSyntax(d: char) {
    d == '\\' || d == '"' || d == '/' || d == 'r' || d == 'n' || d == 'u' || IsHexDigit(d)
  }

  lemma UnitEscapeSyntax(u: nat)
    requires u < 0x10000
    ensures forall i :: 0 <= i < 6 ==> EscapeSyntax(UnitEscape(u)[i])
  {
    var h := Hex4(u);
    assert forall i :: 2 <= i < 6 ==> UnitEscape(u)[i] == h[i - 2];
  }

  lemma EscapeCharSyntax(c: char)
    ensures forall i :: 0 <= i < |EscapeChar(c)| ==> EscapeChar(c)[i] == c || EscapeSyntax(EscapeChar(c)[i])
  {
    if c as int >= 0x10000 && c != '\\' && c != '"' && c != '/' && c != '\n' {
      var a := UnitEscape(HighBase + (c as int - 0x10000) / 0x400);
      var b := UnitEscape(LowBase + (c as int - 0x10000) % 0x400);
      UnitEscapeSyntax(HighBase + (c as int - 0x10000) / 0x400);
      UnitEscapeSyntax(LowBase + (c as int - 0x10000) % 0x400);
      assert forall i :: 0 <= i < 6 ==> (a + b)[i] == a[i];
      assert forall i :: 6 <= i < 12 ==> (a + b)[i] == b[i - 6];
    } else if c as int >= 0x80 && c != '\\' && c != '"' && c != '/' && c != '\n' {
      UnitEscapeSyntax(c as int);
    }
  }

  /** Escaping introduces no character outside its own syntax. */
  lemma {:induction false} EscapeLacks(m: string, x: char)
    requires Lacks(m, x) && !EscapeSyntax(x)
    ensures Lacks(Escape(m), x)
  {
    EscapeByChar(m);
    MapLacks(m, x);
  }

  lemma {:induction false} MapLacks(m: string, x: char)
    requires Lacks(m, x) && !EscapeSyntax(x)
    ensures Lacks(MapChars(EscapeChar, m), x)
    decreases |m|
  {
    if m != [] {
      MapLacks(m[1..], x);
      EscapeCharSyntax(m[0]);
      assert Lacks(EscapeChar(m[0]), x);
      LacksAppend(EscapeChar(m[0]), MapChars(EscapeChar, m[1..]), x);
    }
  }

  /** Text without `{` and `_` is neither shielded nor touched by restoring. */
  lemma PlainText(t: string, blocks: seq<string>)
    requires Lacks(t, '{') && Lacks(t, '_')
    ensures Shield(t) == Shielded(t, []) && Restore(t, blocks) == t
  {
    ShieldWithoutBrace(t);
    NoUnderscore(t);
    RestoreWithoutPrefix(t, blocks);
  }

  /** Minifying and escaping bring in no `{` and no `_`. */
  lemma MinifyEscapeLacks(h: string, x: char)
    requires Lacks(h, x) && (x == '{' || x == '_')
    ensures Lacks(Escape(Minify(h)), x)
  {
    assert !EscapeSyntax(x) && x != ' ' && x != '>' && x != '<' by {
      assert x == '{' || x == '_';
    }
    var m := Minify(h);
    MinifyLacks(h, x);
    EscapeLacks(m, x);
  }

  /** Without any directive, deserializing gives the minified text back. */
  lemma PlainRoundTrip(h: string)
    requires Lacks(h, '{') && Lacks(h, '_')
    ensures Deserialize(Serialize(h)) == Minify(h)
  {
    var m := Minify(h);
    MinifyLacks(h, '{');
    MinifyLacks(h, '_');
    MinifyEscapeLacks(h, '{');
    MinifyEscapeLacks(h, '_');
    var e := Serialize(h);
    PlainText(e, []);
    assert Deserialize(e) == Restore(UnescapeScan(e), []);
    UnescapeScanEscape(m);
    PlainText(m, []);
  }

  /** The same for the functions as written, which also needs the HTML to hold
      no backslash: the unescape chain does not undo the escaping of one. */
  lemma PlainRoundTripAsWritten(h: string)
    requires Lacks(h, '{') && Lacks(h, '_') && Lacks(h, '\\')
    ensures DeserializeAsWritten(SerializeAsWritten(h)) == Minify(h)
  {
    PlainText(h, []);
    MinifyEscapeLacks(h, '{');
    MinifyEscapeLacks(h, '_');
    PlainText(Escape(Minify(h)), []);
    SerializeRoundTripAsWritten(h);
    MinifyLacks(h, '_');
    NoUnderscore(Minify(h));
    RestoreWithoutPrefix(Minify(h), []);
  }

  /**
   * With directives: when shielding the serialized text finds the same
   * directives again (the minified text joins no characters into a new
   * delimiter), deserializing gives the minified text with every directive
   * restored verbatim. `DirectiveRoundTrip` discharges the hypothesis for
   * markup holding one directive.
   */
  lemma SerializeRoundTrip(h: string)
    requires Shield(Serialize(h)) == Shielded(Escape(Minify(Shield(h).text)), Shield(h).blocks)
    ensures Deserialize(Serialize(h)) == Restore(Minify(Shield(h).text), Shield(h).blocks)
  {
    UnescapeScanEscape(Minify(Shield(h).text));
  }

  /**
   * The round trip of the functions as written, with no backslash outside
   * the directives: the minified text with every entry put back by one
   * global replace, which is the corrected round trip when no entry holds a
   * placeholder.
   */
  lemma SerializeRoundTripAsWritten(h: string)
    requires Lacks(Shield(h).text, '\\')
    requires Shield(SerializeAsWritten(h)) == Shielded(Escape(Minify(Shield(h).text)), Shield(h).blocks)
    ensures DeserializeAsWritten(SerializeAsWritten(h)) == RestoreFlat(Minify(Shield(h).text), Shield(h).blocks)
    ensures Unnested(Shield(h).blocks) ==> DeserializeAsWritten(SerializeAsWritten(h)) == Deserialize(Serialize(h))
  {
    var t := Shield(h).text;
    var m := Minify(t);
    MinifyLacks(t, '\\');
    MinifyShape(t);
    assert Lacks(m, '\n');
    UnescapeEscape(m);
    if Unnested(Shield(h).blocks) {
      SerializeRoundTrip(h);
      UnnestedAgrees(m, Shield(h).blocks);
    }
  }

  /** The placeholder between text without whitespace or backslashes has none either. */
  lemma AroundPlaceholder(a: string, b: string)
    ensures NoSpace(a) && NoSpace(b) ==> NoSpace(a + Placeholder(0) + b)
    ensures Lacks(a, '\\') && Lacks(b, '\\') ==> Lacks(a + Placeholder(0) + b, '\\')
  {
    var p := Placeholder(0);
    assert forall i :: 0 <= i < |p| ==> !IsSpace(p[i]) && p[i] != '\\' by {
      forall i | 0 <= i < |p| ensures !IsSpace(p[i]) && p[i] != '\\' {
        assert IsWordChar(p[i]);
      }
    }
  }

  /** Serializing one directive with no whitespace around it: the shielded
      text is not changed by minifying, and the escaped text keeps the placeholder. */
  lemma SerializeOne(a: string, open: string, x: string, close: string, b: string)
    requires IsPair(open, close) && Inner(x)
    requires NoSpace(a) && NoSpace(b)
    requires Lacks(a, '{') && Lacks(a, '_') && Lacks(b, '{') && Lacks(b, '_')
    ensures Shield(a + (open + x + close) + b) == Shielded(a + Placeholder(0) + b, [open + x + close])
    ensures Minify(a + Placeholder(0) + b) == a + Placeholder(0) + b
    ensures Escape(Minify(a + Placeholder(0) + b)) == Escape(a) + Placeholder(0) + Escape(b)
    ensures Lacks(Escape(a), '{') && Lacks(Escape(a), '_') && Lacks(Escape(b), '{') && Lacks(Escape(b), '_')
  {
    ShieldOne(a, open, x, close, b);
    AroundPlaceholder(a, b);
    MinifyNoSpace(a + Placeholder(0) + b);
    EscapeAroundPlaceholder(a, 0, b);
    EscapePlainSides(a, b);
  }

  /** Escaping text without `{` or `_` brings in neither. */
  lemma EscapePlainSides(a: string, b: string)
    requires Lacks(a, '{') && Lacks(a, '_') && Lacks(b, '{') && Lacks(b, '_')
    ensures Lacks(Escape(a), '{') && Lacks(Escape(a), '_') && Lacks(Escape(b), '{') && Lacks(Escape(b), '_')
  {
    assert !EscapeSyntax('{') && !EscapeSyntax('_');
    EscapeLacks(a, '{');
    EscapeLacks(a, '_');
    EscapeLacks(b, '{');
    EscapeLacks(b, '_');
  }

  /**
   * Markup holding one directive, with no whitespace around it to minify:
   * shielding the serialized text finds the directive again, so the
   * hypothesis of `SerializeRoundTrip` holds, both serializers keep the
   * directive verbatim between the escaped texts, and deserializing gives
   * the markup back.
   */
  lemma DirectiveRoundTrip(a: string, open: string, x: string, close: string, b: string)
    requires IsPair(open, close) && Inner(x)
    requires NoSpace(a) && NoSpace(b)
    requires Lacks(a, '{') && Lacks(a, '_') && Lacks(b, '{') && Lacks(b, '_')
    ensures var h := a + (open + x + close) + b;
      && Shield(Serialize(h)) == Shielded(Escape(Minify(Shield(h).text)), Shield(h).blocks)
      && Serialize(h) == SerializeAsWritten(h) == Escape(a) + (open + x + close) + Escape(b)
      && Deserialize(Serialize(h)) == h
  {
    var d := open + x + close;
    var h := a + d + b;
    var p := Placeholder(0);
    SerializeOne(a, open, x, close, b);
    InnerDirective(open, x, close);
    var ea, eb := Escape(a), Escape(b);
    RestoreOne(ea, d, eb);
    assert Serialize(h) == ea + d + eb;
    assert SerializeAsWritten(h) == ea + d + eb;
    ShieldOne(ea, open, x, close, eb);
    SerializeRoundTrip(h);
    RestoreOne(a, d, b);
    assert Restore(Minify(Shield(h).text), Shield(h).blocks) == Restore(a + p + b, [d]);
  }

  /** The same for the functions as written, which also need no backslash around the directive. */
  lemma DirectiveRoundTripAsWritten(a: string, open: string, x: string, close: string, b: string)
    requires IsPair(open, close) && Inner(x)
    requires NoSpace(a) && NoSpace(b) && Lacks(a, '\\') && Lacks(b, '\\')
    requires Lacks(a, '{') && Lacks(a, '_') && Lacks(b, '{') && Lacks(b, '_')
    ensures DeserializeAsWritten(SerializeAsWritten(a + (open + x + close) + b)) == a + (open + x + close) + b
  {
    var d := open + x + close;
    var p := Placeholder(0);
    DirectiveRoundTrip(a, open, x, close, b);
    ShieldOne(a, open, x, close, b);
    AroundPlaceholder(a, b);
    MinifyNoSpace(a + p + b);
    assert Lacks(a + p + b, '\n');
    UnescapeEscape(a + p + b);
    InnerDirective(open, x, close);
    RestoreOne(a, d, b);
  }
}
