/**
 * What the beautifier's walk guarantees: the indent level is never negative
 * and every pushed line carries exactly two spaces per level; only a
 * non-void, non-self-closing element moves the indent, and a matching pair
 * returns it; inside `pre`/`textarea` tags and text are kept exactly; outside,
 * a text keeps its visible characters with each whitespace run turned into
 * one space.
 */
module BeautifyProofs {
  import opened Wrappers
  import opened Text
  import opened Minification
  import opened Tokenizer
  import opened Beautifier

  // ------------------------------------------------------------ indentation

  /** The indent level never goes below zero, whatever the tokens. */
  lemma {:induction false} RunIndentNonNegative(tokens: seq<Token>)
    ensures Run(tokens).indent >= 0
    decreases |tokens|
  {
    if tokens != [] {
      RunIndentNonNegative(tokens[..|tokens| - 1]);
    }
  }

  lemma {:induction false} TrimSpacePrefix(x: string, c: string)
    requires AllSpace(x)
    requires c == [] || !IsSpace(c[0])
    ensures TrimStart(x + c) == c
    decreases |x|
  {
    if x == [] {
      assert x + c == c;
    } else {
      assert (x + c)[0] == x[0];
      assert (x + c)[1..] == x[1..] + c;
      TrimSpacePrefix(x[1..], c);
    }
  }

  /** A pushed line is exactly two spaces per level followed by its content. */
  lemma IndentedShape(level: int, c: string)
    requires level >= 0
    requires c == [] || !IsSpace(c[0])
    ensures TrimStart(Indented(level, c)) == c
    ensures |Indented(level, c)| - |c| == 2 * level
  {
    TrimSpacePrefix(Spaces(2 * level), c);
  }

  /** A comment, a doctype, a self-closing tag or a void element leaves the
      indent level and the open preserved element alone, and adds one line. */
  lemma KeepsIndent(st: State, raw: string)
    requires IsComment(raw) || IsDoctype(raw) || IsSelfClosing(raw) || TagName(raw) in VoidTags
    ensures TagStep(st, raw).indent == st.indent
    ensures TagStep(st, raw).preserve == st.preserve
    ensures |TagStep(st, raw).lines| == |st.lines| + 1 && TagStep(st, raw).lines[..|st.lines|] == st.lines
  {
    var r := TagStep(st, raw);
    assert r.lines[..|st.lines|] == st.lines;
  }

  /** Outside a preserved element, any other opening tag raises the level by one
      and a closing tag lowers it by one, never below zero. */
  lemma MovesIndent(st: State, raw: string)
    requires st.preserve.None?
    requires !IsComment(raw) && !IsDoctype(raw) && !IsSelfClosing(raw) && TagName(raw) !in VoidTags
    ensures !IsClosing(raw) ==> TagStep(st, raw).indent == st.indent + 1
    ensures IsClosing(raw) ==> TagStep(st, raw).indent == AtLeastZero(st.indent - 1)
    ensures !IsClosing(raw) ==> (TagStep(st, raw).preserve.Some? <==> TagName(raw) in PreserveTags)
    ensures IsClosing(raw) ==> TagStep(st, raw).preserve.None?
  {
  }

  // ------------------------------------------------------------ a matching pair

  /** A lower-case element name as `getTagName` reads it. */
  predicate PlainName(name: string) {
    name != [] && forall i :: 0 <= i < |name| ==> IsNameChar(name[i]) && !('A' <= name[i] <= 'Z')
  }

  lemma {:induction false} NameRunOf(name: string, rest: string)
    requires forall i :: 0 <= i < |name| ==> IsNameChar(name[i])
    requires rest == [] || !IsNameChar(rest[0])
    ensures NameRun(name + rest) == |name|
    decreases |name|
  {
    if name == [] {
      assert name + rest == rest;
    } else {
      assert (name + rest)[1..] == name[1..] + rest;
      NameRunOf(name[1..], rest);
    }
  }

  lemma LowerUnchanged(s: string)
    requires forall i :: 0 <= i < |s| ==> !('A' <= s[i] <= 'Z')
    ensures Lower(s) == s
  {
  }

  /** `getTagName` reads the name of `<name>` and of `</name>`. */
  lemma TagNameOf(raw: string, a: nat, name: string)
    requires PlainName(name) && (a == 1 || a == 2)
    requires raw == (if a == 1 then "<" else "</") + name + ">"
    ensures TagName(raw) == name
  {
    assert raw[a..] == name + ">";
    assert SpaceRun(raw[a..]) == 0 by {
      assert !IsSpace(raw[a..][0]);
    }
    NameRunOf(name, ">");
    assert raw[a..a + |name|] == name;
    LowerUnchanged(name);
  }

  lemma TrimsToItself(raw: string)
    requires raw != [] && !IsSpace(raw[0]) && !IsSpace(raw[|raw| - 1])
    ensures TrimEnd(raw) == raw && Trim(raw) == raw
  {
    assert TrimStart(raw) == raw;
  }

  /** `<name>` and `</name>` are neither comments nor doctypes. */
  lemma PlainTagKind(raw: string, a: nat, name: string)
    requires PlainName(name) && (a == 1 || a == 2)
    requires |raw| == a + |name| + 1 && raw[0] == '<' && (a == 2 <==> raw[1] == '/') && raw[a] == name[0]
    ensures !IsComment(raw) && !IsDoctype(raw)
    ensures IsClosing(raw) <==> a == 2
  {
  }

  /** `<name>` and `</name>` are not self-closing. */
  lemma PlainTagEnd(raw: string, name: string)
    requires PlainName(name)
    requires |raw| >= |name| + 2 && raw[0] == '<' && raw[|raw| - 1] == '>' && raw[|raw| - 2] == name[|name| - 1]
    ensures !IsSelfClosing(raw)
  {
    TrimsToItself(raw);
  }

  /** The pieces `getTagName` and the tests of lines 103-106 see in `<name>` and `</name>`. */
  lemma PlainTag(raw: string, a: nat, name: string)
    requires PlainName(name) && (a == 1 || a == 2)
    requires raw == (if a == 1 then "<" else "</") + name + ">"
    ensures TagName(raw) == name
    ensures !IsComment(raw) && !IsDoctype(raw) && !IsSelfClosing(raw)
    ensures IsClosing(raw) <==> a == 2
  {
    TagNameOf(raw, a, name);
    assert raw[a..a + |name|] == name;
    PlainTagKind(raw, a, name);
    PlainTagEnd(raw, name);
  }

  /** A plain opening tag outside a preserved element. */
  lemma OpenTag(st: State, raw: string, name: string)
    requires st.preserve.None? && name !in VoidTags && TagName(raw) == name
    requires !IsComment(raw) && !IsDoctype(raw) && !IsClosing(raw) && !IsSelfClosing(raw)
    ensures TagStep(st, raw)
      == State(st.indent + 1, if name in PreserveTags then Some(name) else None, st.lines + [Indented(st.indent, Trim(raw))])
  {
  }

  /** A plain closing tag, outside a preserved element or closing the open one. */
  lemma CloseTag(st: State, raw: string, name: string)
    requires st.indent >= 1 && (st.preserve.None? || st.preserve == Some(name))
    requires name !in VoidTags && TagName(raw) == name
    requires !IsComment(raw) && !IsDoctype(raw) && IsClosing(raw) && !IsSelfClosing(raw)
    ensures TagStep(st, raw) == State(st.indent - 1, None, st.lines + [Indented(st.indent - 1, Trim(raw))])
  {
  }

  /**
   * An element opened and closed by name, outside any preserved element,
   * comes back to the level it started from, with the two tags on lines of
   * that level; this holds for `pre` and `textarea` too, which the closing
   * tag leaves. Such a tag trims to itself (`PlainTrim`), so each line is the
   * level's indent followed by the tag as written.
   */
  lemma MatchingPair(st: State, name: string)
    requires st.indent >= 0 && st.preserve.None?
    requires PlainName(name) && name !in VoidTags
    ensures TagStep(TagStep(st, "<" + name + ">"), "</" + name + ">")
      == State(st.indent, None, st.lines + [Indented(st.indent, Trim("<" + name + ">")),
                                            Indented(st.indent, Trim("</" + name + ">"))])
  {
    PlainTag("<" + name + ">", 1, name);
    PlainTag("</" + name + ">", 2, name);
    PairSteps(st, "<" + name + ">", "</" + name + ">", name);
  }

  lemma PairSteps(st: State, open: string, close: string, name: string)
    requires st.indent >= 0 && st.preserve.None? && name !in VoidTags
    requires TagName(open) == name && !IsComment(open) && !IsDoctype(open) && !IsClosing(open) && !IsSelfClosing(open)
    requires TagName(close) == name && !IsComment(close) && !IsDoctype(close) && IsClosing(close) && !IsSelfClosing(close)
    ensures TagStep(TagStep(st, open), close)
      == State(st.indent, None, st.lines + [Indented(st.indent, Trim(open)), Indented(st.indent, Trim(close))])
  {
    OpenTag(st, open, name);
    var mid := TagStep(st, open);
    CloseTag(mid, close, name);
    TwoLines(st, mid, TagStep(mid, close), Trim(open), Trim(close));
  }

  /** A step one level in followed by a step one level out, each adding a line. */
  lemma TwoLines(st: State, mid: State, last: State, a: string, b: string)
    requires mid.indent == st.indent + 1 && mid.lines == st.lines + [Indented(st.indent, a)]
    requires last == State(mid.indent - 1, None, mid.lines + [Indented(mid.indent - 1, b)])
    ensures last == State(st.indent, None, st.lines + [Indented(st.indent, a), Indented(st.indent, b)])
  {
    assert st.lines + [Indented(st.indent, a)] + [Indented(st.indent, b)]
        == st.lines + [Indented(st.indent, a), Indented(st.indent, b)];
  }

  /** `<name>` and `</name>` are pushed as written. */
  lemma PlainTrim(raw: string, a: nat, name: string)
    requires PlainName(name) && (a == 1 || a == 2)
    requires raw == (if a == 1 then "<" else "</") + name + ">"
    ensures Trim(raw) == raw
  {
    assert raw[0] == '<' && raw[|raw| - 1] == '>';
    TrimsToItself(raw);
  }

  // ------------------------------------------------------------ preserved elements

  /** Inside `pre` or `textarea`, every tag but the closing one of that element
      is emitted exactly as written, with no indent, and changes nothing else. */
  lemma PreservedTag(st: State, raw: string)
    requires st.preserve.Some? && !(IsClosing(raw) && TagName(raw) == st.preserve.value)
    ensures TagStep(st, raw) == st.(lines := st.lines + [raw])
  {
  }

  /** `\r\n` read as `\n`: what the preserved lines give back once joined. */
  function NormalizeNewlines(s: string): (r: string)
    decreases |s|
  {
    if s == [] then []
    else if |s| >= 2 && s[0] == '\r' && s[1] == '\n' then ['\n'] + NormalizeNewlines(s[2..])
    else [s[0]] + NormalizeNewlines(s[1..])
  }

  lemma JoinHead(c: char, r: seq<string>)
    requires |r| >= 1
    ensures Join([[c] + r[0]] + r[1..], "\n") == [c] + Join(r, "\n")
  {
    var parts := [[c] + r[0]] + r[1..];
    assert parts[1..] == r[1..];
  }

  lemma JoinBlank(r: seq<string>)
    requires |r| >= 1
    ensures Join([[]] + r, "\n") == "\n" + Join(r, "\n")
  {
    var parts: seq<string> := [[]] + r;
    assert |parts| >= 2 && parts[0] == [] && parts[1..] == r;
    assert Join(parts, "\n") == parts[0] + "\n" + Join(parts[1..], "\n");
    assert [] + "\n" == "\n";
  }

  /** Splitting on `\r?\n` and joining with `\n` loses nothing but the `\r` of each `\r\n`. */
  lemma {:induction false} JoinSplitLines(s: string)
    ensures Join(SplitLines(s), "\n") == NormalizeNewlines(s)
    ensures forall p :: p in SplitLines(s) ==> Lacks(p, '\n')
    decreases |s|
  {
    if s == [] {
    } else if s[0] == '\n' {
      JoinSplitLines(s[1..]);
      JoinBlank(SplitLines(s[1..]));
    } else if |s| >= 2 && s[0] == '\r' && s[1] == '\n' {
      JoinSplitLines(s[2..]);
      JoinBlank(SplitLines(s[2..]));
    } else {
      var r := SplitLines(s[1..]);
      JoinSplitLines(s[1..]);
      JoinHead(s[0], r);
      assert r[0] in r;
      assert forall p :: p in r[1..] ==> p in r;
      LacksCons(s[0], r[0], '\n');
    }
  }

  /** Inside `pre` or `textarea`, a text becomes lines without any `\n` that,
      joined back, are the text itself with `\r\n` read as `\n`. */
  lemma PreservedText(st: State, text: string)
    requires st.preserve.Some? && text != []
    ensures TextStep(st, text).indent == st.indent && TextStep(st, text).preserve == st.preserve
    ensures TextStep(st, text).lines[..|st.lines|] == st.lines
    ensures Join(TextStep(st, text).lines[|st.lines|..], "\n") == NormalizeNewlines(text)
    ensures forall p :: p in TextStep(st, text).lines[|st.lines|..] ==> Lacks(p, '\n')
  {
    var lines := TextStep(st, text).lines;
    assert lines[|st.lines|..] == SplitLines(text);
    assert lines[..|st.lines|] == st.lines;
    JoinSplitLines(text);
  }

  // ------------------------------------------------------------ text outside

  /** Whitespace is only single `' '` characters, never two in a row. */
  predicate Collapsed(s: string) {
    forall i :: 0 <= i < |s| && IsSpace(s[i]) ==> s[i] == ' ' && (i + 1 < |s| ==> !IsSpace(s[i + 1]))
  }

  lemma CollapseHead(s: string)
    requires s != [] && !IsSpace(s[0])
    ensures CollapseSpace(s) != [] && CollapseSpace(s)[0] == s[0]
  {
  }

  lemma CollapsedCons(c: char, t: string)
    requires Collapsed(t)
    requires IsSpace(c) ==> c == ' ' && (t == [] || !IsSpace(t[0]))
    ensures Collapsed([c] + t)
  {
    var s := [c] + t;
    forall i | 0 <= i < |s| && IsSpace(s[i])
      ensures s[i] == ' ' && (i + 1 < |s| ==> !IsSpace(s[i + 1]))
    {
      if i > 0 {
        assert s[i] == t[i - 1];
      }
    }
  }

  /** Collapsing keeps every visible character, in order, and leaves single spaces only. */
  lemma {:induction false} CollapseSpaceKeeps(s: string)
    ensures NonSpace(CollapseSpace(s)) == NonSpace(s)
    ensures Collapsed(CollapseSpace(s))
    decreases |s|
  {
    if s != [] {
      if IsSpace(s[0]) {
        var n := SpaceRun(s);
        var rest := s[n..];
        CollapseSpaceKeeps(rest);
        assert s == s[..n] + rest;
        NonSpaceAppend(s[..n], rest);
        NonSpaceOfSpaces(s[..n]);
        NonSpaceAppend([' '], CollapseSpace(rest));
        if rest != [] {
          CollapseHead(rest);
        }
        CollapsedCons(' ', CollapseSpace(rest));
      } else {
        CollapseSpaceKeeps(s[1..]);
        NonSpaceAppend([s[0]], CollapseSpace(s[1..]));
        CollapsedCons(s[0], CollapseSpace(s[1..]));
      }
    }
  }

  lemma CollapsedSlice(s: string, a: nat, b: nat)
    requires a <= b <= |s| && Collapsed(s)
    ensures Collapsed(s[a..b])
  {
    var t := s[a..b];
    forall i | 0 <= i < |t| && IsSpace(t[i])
      ensures t[i] == ' ' && (i + 1 < |t| ==> !IsSpace(t[i + 1]))
    {
      assert t[i] == s[a + i];
      if i + 1 < |t| {
        assert t[i + 1] == s[a + i + 1];
      }
    }
  }

  /** Trimming removes whitespace only. */
  lemma TrimNonSpace(s: string)
    ensures NonSpace(Trim(s)) == NonSpace(s)
  {
    var a, b := TrimSlice(s);
    NonSpaceInside(s, a, b);
  }

  /** Whitespace around a slice adds no visible character. */
  lemma NonSpaceInside(s: string, a: nat, b: nat)
    requires a <= b <= |s| && AllSpace(s[..a]) && AllSpace(s[b..])
    ensures NonSpace(s) == NonSpace(s[a..b])
  {
    assert s == s[..a] + s[a..b] + s[b..];
    NonSpaceAround(s[..a], s[a..b], s[b..]);
  }

  lemma NonSpaceAround(x: string, y: string, z: string)
    requires AllSpace(x) && AllSpace(z)
    ensures NonSpace(x + y + z) == NonSpace(y)
  {
    NonSpaceAppend(x + y, z);
    NonSpaceAppend(x, y);
    NonSpaceOfSpaces(x);
    NonSpaceOfSpaces(z);
  }

  /** Trimming keeps a collapsed text collapsed. */
  lemma TrimCollapsed(s: string)
    requires Collapsed(s)
    ensures Collapsed(Trim(s))
  {
    var a, b := TrimSlice(s);
    CollapsedSlice(s, a, b);
  }

  /**
   * Outside a preserved element, a text gives at most one line, at the current
   * level: none when it is whitespace only, otherwise one whose content has
   * the text's visible characters in order, single spaces between them and
   * none at either end.
   */
  lemma TextLine(st: State, text: string)
    requires st.preserve.None?
    ensures TextStep(st, text).indent == st.indent && TextStep(st, text).preserve == st.preserve
    ensures NonSpace(text) == [] ==> TextStep(st, text) == st
    ensures NonSpace(text) != [] ==>
      var c := Trim(CollapseSpace(text));
      TextStep(st, text).lines == st.lines + [Indented(st.indent, c)]
      && NonSpace(c) == NonSpace(text) && Collapsed(c) && !IsSpace(c[0]) && !IsSpace(c[|c| - 1])
  {
    var c := Trim(CollapseSpace(text));
    CollapseSpaceKeeps(text);
    TrimNonSpace(CollapseSpace(text));
    TrimCollapsed(CollapseSpace(text));
    if c != [] {
      NonSpaceAppend([c[0]], c[1..]);
      assert c == [c[0]] + c[1..];
    }
  }

  // ------------------------------------------------------------ tag names

  lemma {:induction false} NameRunChars(u: string)
    ensures forall i :: 0 <= i < NameRun(u) ==> IsNameChar(u[i])
    decreases |u|
  {
    if u != [] && IsNameChar(u[0]) {
      NameRunChars(u[1..]);
    }
  }

  /** Tag names are compared in lower case: `getTagName` gives name characters with no capital. */
  lemma TagNameLower(raw: string)
    ensures forall i :: 0 <= i < |TagName(raw)| ==> IsNameChar(TagName(raw)[i]) && !('A' <= TagName(raw)[i] <= 'Z')
  {
    if raw != [] && raw[0] == '<' {
      var a := if |raw| >= 2 && raw[1] == '/' then 2 else 1;
      var b := a + SpaceRun(raw[a..]);
      NameRunChars(raw[b..]);
      var n := raw[b..b + NameRun(raw[b..])];
      assert forall i :: 0 <= i < |n| ==> n[i] == raw[b..][i];
    }
  }
}
