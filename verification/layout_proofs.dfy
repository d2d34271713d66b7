/**
 * What the walk does to the text as a whole (src/components/Serializer.tsx,
 * lines 86-153): the joined lines hold exactly the visible characters of the
 * tokens, in order, and a word without whitespace, `<` or `>` inside one
 * token comes out whole, on one line, with only text taken from around it
 * beside it.
 */
module LayoutProofs {
  import opened Wrappers
  import opened Text
  import opened Minification
  import opened Tokenizer
  import opened Beautifier
  import opened BeautifyProofs

  // ------------------------------------------------------------ absent characters

  lemma LacksConcat(a: string, b: string, c: char)
    ensures Lacks(a + b, c) <==> Lacks(a, c) && Lacks(b, c)
  {
    assert forall i :: 0 <= i < |a| ==> (a + b)[i] == a[i];
    assert forall i :: 0 <= i < |b| ==> (a + b)[|a| + i] == b[i];
  }

  /** A visible character is absent from a text exactly when it is absent
      from the text's visible characters. */
  lemma {:induction false} LacksNonSpace(s: string, c: char)
    requires !IsSpace(c)
    ensures Lacks(s, c) <==> Lacks(NonSpace(s), c)
    decreases |s|
  {
    if s != [] {
      LacksNonSpace(s[1..], c);
      var h := if IsSpace(s[0]) then [] else [s[0]];
      assert NonSpace(s) == h + NonSpace(s[1..]);
      assert s == [s[0]] + s[1..];
      LacksConcat([s[0]], s[1..], c);
      LacksConcat(h, NonSpace(s[1..]), c);
    }
  }

  /** No line of `lines` holds `c`. */
  predicate LinesLack(lines: seq<string>, c: char) {
    forall j :: 0 <= j < |lines| ==> Lacks(lines[j], c)
  }

  lemma LinesLackAppend(a: seq<string>, b: seq<string>, c: char)
    ensures LinesLack(a + b, c) <==> LinesLack(a, c) && LinesLack(b, c)
  {
    assert forall j :: 0 <= j < |a| ==> (a + b)[j] == a[j];
    assert forall j :: 0 <= j < |b| ==> (a + b)[|a| + j] == b[j];
  }

  /** With a separator without `c`, the joined text lacks `c` exactly when every part does. */
  lemma {:induction false} JoinLacks(parts: seq<string>, sep: string, c: char)
    requires Lacks(sep, c)
    ensures Lacks(Join(parts, sep), c) <==> LinesLack(parts, c)
    decreases |parts|
  {
    if |parts| == 1 {
    } else if |parts| >= 2 {
      JoinLacks(parts[1..], sep, c);
      LacksConcat(parts[0] + sep, Join(parts[1..], sep), c);
      LacksConcat(parts[0], sep, c);
      assert parts == [parts[0]] + parts[1..];
      LinesLackAppend([parts[0]], parts[1..], c);
    }
  }

  // ------------------------------------------------------------ joining

  /** The lines before a given one, each followed by the separator. */
  function Lead(lines: seq<string>, sep: string): string {
    if lines == [] then [] else Join(lines, sep) + sep
  }

  /** The lines after a given one, each preceded by the separator. */
  function Trail(lines: seq<string>, sep: string): string {
    if lines == [] then [] else sep + Join(lines, sep)
  }

  lemma JoinAround(p: seq<string>, m: string, q: seq<string>, sep: string)
    ensures Join(p + [m] + q, sep) == Lead(p, sep) + m + Trail(q, sep)
  {
    JoinFirst(m, q, sep);
    Assoc(p, [m], q);
    if p == [] {
      EmptyLeft([m] + q);
      EmptyLeft(m);
    } else {
      JoinAppend(p, [m] + q, sep);
      Assoc(Join(p, sep) + sep, m, Trail(q, sep));
    }
  }

  /** A line followed by more lines. */
  lemma JoinFirst(m: string, q: seq<string>, sep: string)
    ensures Join([m] + q, sep) == m + Trail(q, sep)
  {
    if q == [] {
      assert [m] + q == [m];
      assert m + [] == m;
    } else {
      JoinAppend([m], q, sep);
      assert Join([m], sep) == m;
      Assoc(m, sep, Join(q, sep));
    }
  }

  /** Joining with whitespace adds no visible character. */
  lemma JoinNonSpace(a: seq<string>, b: seq<string>, sep: string)
    requires AllSpace(sep)
    ensures NonSpace(Join(a + b, sep)) == NonSpace(Join(a, sep)) + NonSpace(Join(b, sep))
  {
    if a == [] {
      assert a + b == b;
    } else if b == [] {
      assert a + b == a;
    } else {
      JoinAppend(a, b, sep);
      NonSpaceAppend(Join(a, sep) + sep, Join(b, sep));
      NonSpaceAppend(Join(a, sep), sep);
      NonSpaceOfSpaces(sep);
    }
  }

  // ------------------------------------------------------------ tokens put together

  lemma {:induction false} ConcatAppend(a: seq<Token>, b: seq<Token>)
    ensures Concat(a + b) == Concat(a) + Concat(b)
    decreases |a|
  {
    if a == [] {
      assert a + b == b;
    } else {
      assert (a + b)[1..] == a[1..] + b;
      ConcatAppend(a[1..], b);
    }
  }

  lemma {:induction false} ConcatLacks(tokens: seq<Token>, c: char)
    requires AllLack(tokens, c)
    ensures Lacks(Concat(tokens), c)
    decreases |tokens|
  {
    if tokens != [] {
      ConcatLacks(tokens[1..], c);
      LacksConcat(tokens[0].value, Concat(tokens[1..]), c);
    }
  }

  // ------------------------------------------------------------ one step

  /** A tag token adds one line: the tag as written, or trimmed and indented. */
  lemma TagLine(st: State, raw: string) returns (level: int, trimmed: bool)
    ensures TagStep(st, raw).lines == st.lines + [if trimmed then Indented(level, Trim(raw)) else raw]
  {
    var name := TagName(raw);
    var closing := IsClosing(raw);
    var selfClosing := IsSelfClosing(raw);
    var isVoid := name in VoidTags;
    if st.preserve.Some? && !(closing && name == st.preserve.value) {
      level, trimmed := 0, false;
    } else if IsComment(raw) || IsDoctype(raw) {
      level, trimmed := st.indent, true;
    } else if closing && !selfClosing && !isVoid {
      level, trimmed := AtLeastZero(st.indent - 1), true;
    } else {
      level, trimmed := st.indent, true;
    }
  }

  lemma IndentedNonSpace(level: int, content: string)
    ensures NonSpace(Indented(level, content)) == NonSpace(content)
  {
    var sp := Spaces(2 * AtLeastZero(level));
    NonSpaceAppend(sp, content);
    NonSpaceOfSpaces(sp);
  }

  /** `\r\n` read as `\n` changes whitespace only. */
  lemma {:induction false} NormalizeNonSpace(s: string)
    ensures NonSpace(NormalizeNewlines(s)) == NonSpace(s)
    decreases |s|
  {
    if s == [] {
    } else if |s| >= 2 && s[0] == '\r' && s[1] == '\n' {
      NormalizeNonSpace(s[2..]);
      assert s == s[..2] + s[2..];
      NonSpaceAppend(s[..2], s[2..]);
      NonSpaceOfSpaces(s[..2]);
      NonSpaceAppend(['\n'], NormalizeNewlines(s[2..]));
      NonSpaceOfSpaces(['\n']);
    } else {
      NormalizeNonSpace(s[1..]);
      NonSpaceKeepHead(s[0], NormalizeNewlines(s[1..]), s[1..]);
      assert s == [s[0]] + s[1..];
    }
  }

  /** One step adds lines that, joined, hold exactly the token's visible characters. */
  lemma StepAdds(st: State, t: Token) returns (added: seq<string>)
    ensures Step(st, t).lines == st.lines + added
    ensures NonSpace(Join(added, "\n")) == NonSpace(t.value)
  {
    match t
    case TagToken(raw) =>
      var level, trimmed := TagLine(st, raw);
      var line := if trimmed then Indented(level, Trim(raw)) else raw;
      added := [line];
      assert Join(added, "\n") == line;
      if trimmed {
        IndentedNonSpace(level, Trim(raw));
        TrimNonSpace(raw);
      }
    case TextToken(text) =>
      if text == [] {
        added := [];
        assert st.lines + [] == st.lines;
      } else if st.preserve.Some? {
        added := SplitLines(text);
        JoinSplitLines(text);
        NormalizeNonSpace(text);
      } else {
        TextLine(st, text);
        if NonSpace(text) == [] {
          added := [];
          assert st.lines + [] == st.lines;
        } else {
          var c := Trim(CollapseSpace(text));
          added := [Indented(st.indent, c)];
          assert Join(added, "\n") == Indented(st.indent, c);
          IndentedNonSpace(st.indent, c);
        }
      }
  }

  // ------------------------------------------------------------ the whole walk

  lemma Assoc<T>(x: seq<T>, y: seq<T>, z: seq<T>)
    ensures (x + y) + z == x + (y + z)
  {
  }

  lemma EmptyLeft<T>(x: seq<T>)
    ensures [] + x == x
  {
  }

  lemma RunSnoc(tokens: seq<Token>, t: Token)
    ensures Run(tokens + [t]) == Step(Run(tokens), t)
  {
    var all := tokens + [t];
    assert all[..|all| - 1] == tokens;
    assert all[|all| - 1] == t;
  }

  lemma LinesSnoc(a: seq<Token>, init: seq<Token>, t: Token, more: seq<string>, added: seq<string>)
    requires Run(a + init).lines == Run(a).lines + more
    requires Step(Run(a + init), t).lines == Run(a + init).lines + added
    ensures Run(a + (init + [t])).lines == Run(a).lines + (more + added)
  {
    assert a + (init + [t]) == (a + init) + [t];
    RunSnoc(a + init, t);
    Assoc(Run(a).lines, more, added);
  }

  lemma VisibleSnoc(init: seq<Token>, t: Token, more: seq<string>, added: seq<string>)
    requires NonSpace(Join(more, "\n")) == NonSpace(Concat(init))
    requires NonSpace(Join(added, "\n")) == NonSpace(t.value)
    ensures NonSpace(Join(more + added, "\n")) == NonSpace(Concat(init + [t]))
  {
    JoinNonSpace(more, added, "\n");
    ConcatAppend(init, [t]);
    ConcatCons(t, []);
    assert [t] + [] == [t];
    assert t.value + [] == t.value;
    assert Concat([t]) == t.value;
    assert Concat(init + [t]) == Concat(init) + t.value;
    NonSpaceAppend(Concat(init), t.value);
  }

  /** The walk over `a + b` is the walk over `a` followed by lines holding
      exactly the visible characters of `b`. */
  lemma {:induction false} RunAppend(a: seq<Token>, b: seq<Token>) returns (more: seq<string>)
    ensures Run(a + b).lines == Run(a).lines + more
    ensures NonSpace(Join(more, "\n")) == NonSpace(Concat(b))
    decreases |b|
  {
    if b == [] {
      assert a + b == a;
      more := [];
      assert Run(a).lines + more == Run(a).lines;
    } else {
      var init := b[..|b| - 1];
      var t := b[|b| - 1];
      assert b == init + [t];
      var more' := RunAppend(a, init);
      var added := StepAdds(Run(a + init), t);
      LinesSnoc(a, init, t, more', added);
      VisibleSnoc(init, t, more', added);
      more := more' + added;
    }
  }

  /** The joined lines hold exactly the visible characters of the tokens, in order. */
  lemma RunNonSpace(tokens: seq<Token>)
    ensures NonSpace(Join(Run(tokens).lines, "\n")) == NonSpace(Concat(tokens))
  {
    var more := RunAppend([], tokens);
    EmptyLeft(tokens);
    EmptyLeft(more);
  }

  /** Lines that hold the visible characters of a text without `c` hold no `c`. */
  lemma LinesLackFromText(lines: seq<string>, text: string, c: char)
    requires !IsSpace(c) && Lacks(text, c) && NonSpace(Join(lines, "\n")) == NonSpace(text)
    ensures LinesLack(lines, c)
  {
    LacksNonSpace(text, c);
    LacksNonSpace(Join(lines, "\n"), c);
    JoinLacks(lines, "\n", c);
  }

  // ------------------------------------------------------------ a word inside one token

  /** Collapsing passes over a word without whitespace. */
  lemma {:induction false} CollapseWord(w: string, y: string)
    requires NoSpace(w)
    ensures CollapseSpace(w + y) == w + CollapseSpace(y)
    decreases |w|
  {
    if w == [] {
      assert w + y == y;
    } else {
      assert (w + y)[1..] == w[1..] + y;
      CollapseWord(w[1..], y);
      assert w == [w[0]] + w[1..];
    }
  }

  /** The whitespace run at the front of `x` stops before a word with a visible start. */
  lemma SpaceRunBefore(x: string, z: string)
    requires z != [] && !IsSpace(z[0])
    ensures SpaceRun(x + z) == SpaceRun(x)
  {
    var n := SpaceRun(x);
    if n < |x| {
      SpaceRunPrefix(x, z);
    } else {
      assert x[..n] == x;
      SpaceRunAppend(x, z);
    }
  }

  /** A word without whitespace splits the collapsing in two. */
  lemma {:induction false} CollapseSplit(x: string, w: string, y: string)
    requires w != [] && NoSpace(w)
    ensures CollapseSpace(x + w + y) == CollapseSpace(x) + w + CollapseSpace(y)
    decreases |x|
  {
    if x == [] {
      assert x + w + y == w + y;
      CollapseWord(w, y);
    } else {
      var n, h := CollapseHead(x, w, y);
      CollapseSplit(x[n..], w, y);
      Regroup3(h, CollapseSpace(x[n..]), w, CollapseSpace(y));
    }
  }

  /** Collapsing `x + w + y` and collapsing `x` begin alike: with one space for
      the whitespace run at the front of `x`, or with its first character. */
  lemma CollapseHead(x: string, w: string, y: string) returns (n: nat, h: string)
    requires x != [] && w != [] && NoSpace(w)
    ensures 0 < n <= |x|
    ensures CollapseSpace(x + w + y) == h + CollapseSpace(x[n..] + w + y)
    ensures CollapseSpace(x) == h + CollapseSpace(x[n..])
  {
    var s := x + w + y;
    if IsSpace(x[0]) {
      n, h := SpaceRun(x), [' '];
      assert s == x + (w + y);
      SpaceRunBefore(x, w + y);
    } else {
      n, h := 1, [x[0]];
    }
    assert s[n..] == x[n..] + w + y;
  }

  /** Whitespace at the front of a text ends before its first visible character. */
  lemma SpaceBound(s: string, i: nat, k: nat)
    requires i <= |s| && AllSpace(s[..i]) && k < |s| && !IsSpace(s[k])
    ensures i <= k
  {
    forall m | 0 <= m < i
      ensures IsSpace(s[m])
    {
      assert s[..i][m] == s[m];
    }
  }

  lemma SpaceBoundEnd(s: string, j: nat, k: nat)
    requires j <= |s| && AllSpace(s[j..]) && k < |s| && !IsSpace(s[k])
    ensures k < j
  {
    forall m | j <= m < |s|
      ensures IsSpace(s[m])
    {
      assert s[j..][m - j] == s[m];
    }
  }

  /** Trimming keeps a word with visible ends whole, with part of the text
      on either side of it. */
  lemma TrimSplit(x: string, w: string, y: string, c: char) returns (a: string, b: string)
    requires w != [] && !IsSpace(w[0]) && !IsSpace(w[|w| - 1])
    requires Lacks(x, c) && Lacks(y, c)
    ensures Trim(x + w + y) == a + w + b && Lacks(a, c) && Lacks(b, c)
  {
    var s := x + w + y;
    var i, j := TrimSlice(s);
    assert s[|x|] == w[0];
    SpaceBound(s, i, |x|);
    assert s[|x| + |w| - 1] == w[|w| - 1];
    SpaceBoundEnd(s, j, |x| + |w| - 1);
    a := x[i..];
    b := y[..j - |x| - |w|];
    SliceAround(x, w, y, i, j);
    SuffixLacks(x, i, c);
    PrefixLacks(y, j - |x| - |w|, c);
  }

  lemma SliceAround(x: string, w: string, y: string, i: nat, j: nat)
    requires i <= |x| && |x| + |w| <= j <= |x| + |w| + |y|
    ensures (x + w + y)[i..j] == x[i..] + w + y[..j - |x| - |w|]
  {
  }

  lemma SuffixLacks(x: string, i: nat, c: char)
    requires i <= |x| && Lacks(x, c)
    ensures Lacks(x[i..], c)
  {
    forall k | 0 <= k < |x| - i
      ensures x[i..][k] != c
    {
      assert x[i..][k] == x[i + k];
    }
  }

  lemma PrefixLacks(y: string, n: nat, c: char)
    requires n <= |y| && Lacks(y, c)
    ensures Lacks(y[..n], c)
  {
    forall k | 0 <= k < n
      ensures y[..n][k] != c
    {
      assert y[..n][k] == y[k];
    }
  }

  lemma {:induction false} SplitLinesLack(z: string, c: char)
    requires Lacks(z, c)
    ensures LinesLack(SplitLines(z), c)
    decreases |z|
  {
    if z == [] {
    } else if z[0] == '\n' {
      SplitLinesLack(z[1..], c);
      LinesLackAppend([[]], SplitLines(z[1..]), c);
    } else if |z| >= 2 && z[0] == '\r' && z[1] == '\n' {
      SplitLinesLack(z[2..], c);
      LinesLackAppend([[]], SplitLines(z[2..]), c);
    } else {
      var r := SplitLines(z[1..]);
      SplitLinesLack(z[1..], c);
      LacksConcat([z[0]], r[0], c);
      assert r == [r[0]] + r[1..];
      LinesLackAppend([r[0]], r[1..], c);
      LinesLackAppend([[z[0]] + r[0]], r[1..], c);
    }
  }

  /** A word without line breaks joins the first line of what follows it. */
  lemma {:induction false} SplitLinesWord(w: string, y: string)
    requires NoSpace(w)
    ensures SplitLines(w + y) == [w + SplitLines(y)[0]] + SplitLines(y)[1..]
    decreases |w|
  {
    var r := SplitLines(y);
    if w == [] {
      assert w + y == y;
      assert r == [r[0]] + r[1..];
      assert w + r[0] == r[0];
    } else {
      assert (w + y)[1..] == w[1..] + y;
      SplitLinesWord(w[1..], y);
      assert [w[0]] + (w[1..] + SplitLines(y)[0]) == w + SplitLines(y)[0];
    }
  }

  /** A line break at the front starts with an empty line. */
  lemma SplitLinesBreak(s: string, k: nat)
    requires (k == 1 && s != [] && s[0] == '\n') || (k == 2 && |s| >= 2 && s[0] == '\r' && s[1] == '\n')
    ensures SplitLines(s) == [[]] + SplitLines(s[k..])
  {
  }

  /** Any other first character joins the first line of what follows. */
  lemma SplitLinesOther(s: string)
    requires s != [] && s[0] != '\n' && !(|s| >= 2 && s[0] == '\r' && s[1] == '\n')
    ensures SplitLines(s) == [[s[0]] + SplitLines(s[1..])[0]] + SplitLines(s[1..])[1..]
  {
  }

  lemma PrependBlank(p: seq<string>, m: string, q: seq<string>)
    ensures [[]] + (p + [m] + q) == ([[]] + p) + [m] + q
  {
  }

  /** A character put at the front of the first line. */
  lemma GlueHead(h: char, p': seq<string>, a': string, w: string, b': string, q': seq<string>, c: char)
      returns (p: seq<string>, a: string, b: string, q: seq<string>)
    requires h != c && LinesLack(p', c) && LinesLack(q', c) && Lacks(a', c) && Lacks(b', c)
    ensures var r := p' + [a' + w + b'] + q'; [[h] + r[0]] + r[1..] == p + [a + w + b] + q
    ensures LinesLack(p, c) && LinesLack(q, c) && Lacks(a, c) && Lacks(b, c)
  {
    var r := p' + [a' + w + b'] + q';
    if p' == [] {
      p, a, b, q := [], [h] + a', b', q';
      assert r == [a' + w + b'] + q';
      assert [h] + (a' + w + b') == a + w + b;
      LacksConcat([h], a', c);
    } else {
      p, a, b, q := [[h] + p'[0]] + p'[1..], a', b', q';
      assert r == [p'[0]] + (p'[1..] + [a' + w + b'] + q');
      assert r[1..] == p'[1..] + [a' + w + b'] + q';
      assert p' == [p'[0]] + p'[1..];
      LinesLackAppend([p'[0]], p'[1..], c);
      LacksConcat([h], p'[0], c);
      LinesLackAppend([[h] + p'[0]], p'[1..], c);
    }
  }

  /** Inside a preserved element, the word lands whole on one of the lines. */
  lemma {:induction false} SplitLinesSplit(x: string, w: string, y: string, c: char)
      returns (p: seq<string>, a: string, b: string, q: seq<string>)
    requires w != [] && NoSpace(w) && Lacks(x, c) && Lacks(y, c)
    ensures SplitLines(x + w + y) == p + [a + w + b] + q
    ensures LinesLack(p, c) && LinesLack(q, c) && Lacks(a, c) && Lacks(b, c)
    decreases |x|
  {
    if x == [] {
      assert x + w + y == w + y;
      p, a, b, q := WordFirst(w, y, c);
    } else {
      var k, glued := FirstLine(x, w, y);
      LacksWithin(x, 0, |x|, k, |x|, c);
      assert x[0..|x|] == x;
      var p', a', b', q' := SplitLinesSplit(x[k..], w, y, c);
      if glued {
        p, a, b, q := GlueHead(x[0], p', a', w, b', q', c);
      } else {
        PrependBlank(p', a' + w + b', q');
        p, a, b, q := [[]] + p', a', b', q';
        LinesLackAppend([[]], p', c);
      }
    }
  }

  /** The word at the very front lands whole on the first line. */
  lemma WordFirst(w: string, y: string, c: char) returns (p: seq<string>, a: string, b: string, q: seq<string>)
    requires NoSpace(w) && Lacks(y, c)
    ensures SplitLines(w + y) == p + [a + w + b] + q
    ensures LinesLack(p, c) && LinesLack(q, c) && Lacks(a, c) && Lacks(b, c)
  {
    SplitLinesWord(w, y);
    SplitLinesLack(y, c);
    var r := SplitLines(y);
    assert r == [r[0]] + r[1..];
    LinesLackAppend([r[0]], r[1..], c);
    p, a, b, q := [], [], r[0], r[1..];
    assert a + w + b == w + r[0];
    assert p + [a + w + b] + q == [w + r[0]] + r[1..];
  }

  /**
   * How the lines of `x + w + y` begin when `x` is not empty: with a line
   * break of `k` characters, or (`glued`) with the first character of `x` at
   * the front of the first line of the rest. A lone `\r` at the end of `x`
   * is followed by the word, which starts with no `\n`.
   */
  lemma FirstLine(x: string, w: string, y: string) returns (k: nat, glued: bool)
    requires x != [] && w != [] && NoSpace(w)
    ensures 1 <= k <= |x| && (x + w + y)[k..] == x[k..] + w + y
    ensures glued ==> (k == 1 && SplitLines(x + w + y)
                              == [[x[0]] + SplitLines(x[1..] + w + y)[0]] + SplitLines(x[1..] + w + y)[1..])
    ensures !glued ==> SplitLines(x + w + y) == [[]] + SplitLines(x[k..] + w + y)
  {
    var s := x + w + y;
    assert |x| >= 2 ==> s[1] == x[1];
    assert |x| == 1 ==> s[1] == w[0];
    assert !IsSpace(w[0]);
    if x[0] == '\n' {
      k, glued := 1, false;
    } else if |x| >= 2 && x[0] == '\r' && x[1] == '\n' {
      k, glued := 2, false;
    } else {
      k, glued := 1, true;
    }
    assert s[k..] == x[k..] + w + y;
    if glued {
      SplitLinesOther(s);
    } else {
      SplitLinesBreak(s, k);
    }
  }

  /** A tag holding the word becomes one line holding it whole. */
  lemma TagSplit(st: State, raw: string, x: string, w: string, y: string, c: char) returns (a: string, b: string)
    requires raw == x + w + y && w != [] && NoSpace(w) && Lacks(x, c) && Lacks(y, c)
    requires !IsSpace(c)
    ensures TagStep(st, raw).lines == st.lines + [a + w + b] && Lacks(a, c) && Lacks(b, c)
  {
    var level, trimmed := TagLine(st, raw);
    a, b := LineSplit(level, trimmed, raw, x, w, y, c);
  }

  /** The line a tag adds, as written or trimmed and indented, holds the word whole. */
  lemma LineSplit(level: int, trimmed: bool, raw: string, x: string, w: string, y: string, c: char)
      returns (a: string, b: string)
    requires raw == x + w + y && w != [] && NoSpace(w) && Lacks(x, c) && Lacks(y, c)
    requires !IsSpace(c)
    ensures (if trimmed then Indented(level, Trim(raw)) else raw) == a + w + b && Lacks(a, c) && Lacks(b, c)
  {
    if trimmed {
      var a', b' := TrimSplit(x, w, y, c);
      var sp := Spaces(2 * AtLeastZero(level));
      assert Lacks(sp, c);
      Regroup3(sp, a', w, b');
      a, b := sp + a', b';
      LacksConcat(sp, a', c);
    } else {
      a, b := x, y;
    }
  }

  /** Inside a preserved element the text's lines are added as they are. */
  lemma PreservedSplit(st: State, text: string, x: string, w: string, y: string, c: char)
      returns (p: seq<string>, a: string, b: string, q: seq<string>)
    requires text == x + w + y && w != [] && NoSpace(w) && Lacks(x, c) && Lacks(y, c)
    requires st.preserve.Some?
    ensures TextStep(st, text).lines == st.lines + p + [a + w + b] + q
    ensures LinesLack(p, c) && LinesLack(q, c) && Lacks(a, c) && Lacks(b, c)
  {
    p, a, b, q := SplitLinesSplit(x, w, y, c);
    assert TextStep(st, text).lines == st.lines + SplitLines(text);
    assert st.lines + (p + [a + w + b] + q) == st.lines + p + [a + w + b] + q;
  }

  /** Elsewhere the text is collapsed and trimmed onto one indented line. */
  lemma CollapsedSplit(st: State, text: string, x: string, w: string, y: string, c: char)
      returns (a: string, b: string)
    requires text == x + w + y && w != [] && NoSpace(w) && Lacks(x, c) && Lacks(y, c)
    requires st.preserve.None? && !IsSpace(c)
    ensures TextStep(st, text).lines == st.lines + [a + w + b] && Lacks(a, c) && Lacks(b, c)
  {
    CollapseSplit(x, w, y);
    CollapseSpaceKeeps(x);
    CollapseSpaceKeeps(y);
    LacksNonSpace(x, c);
    LacksNonSpace(y, c);
    LacksNonSpace(CollapseSpace(x), c);
    LacksNonSpace(CollapseSpace(y), c);
    var a', b' := TrimSplit(CollapseSpace(x), w, CollapseSpace(y), c);
    var line := a' + w + b';
    assert Trim(CollapseSpace(text)) == line;
    assert TextStep(st, text).lines == st.lines + [Indented(st.indent, line)];
    var sp := Spaces(2 * AtLeastZero(st.indent));
    assert Lacks(sp, c);
    a, b := sp + a', b';
    LacksConcat(sp, a', c);
    Regroup3(sp, a', w, b');
  }

  lemma Regroup3(sp: string, a: string, w: string, b: string)
    ensures sp + (a + w + b) == (sp + a) + w + b
  {
  }

  /** The step for the token holding the word puts the word whole on one line. */
  lemma StepSplit(st: State, t: Token, x: string, w: string, y: string, c: char)
      returns (p: seq<string>, a: string, b: string, q: seq<string>)
    requires t.value == x + w + y && w != [] && NoSpace(w) && !IsSpace(c) && Lacks(x, c) && Lacks(y, c)
    ensures Step(st, t).lines == st.lines + p + [a + w + b] + q
    ensures LinesLack(p, c) && LinesLack(q, c) && Lacks(a, c) && Lacks(b, c)
  {
    match t
    case TagToken(raw) =>
      p, q := [], [];
      a, b := TagSplit(st, raw, x, w, y, c);
      assert st.lines + p + [a + w + b] + q == st.lines + [a + w + b];
    case TextToken(text) =>
      if st.preserve.Some? {
        p, a, b, q := PreservedSplit(st, text, x, w, y, c);
      } else {
        p, q := [], [];
        a, b := CollapsedSplit(st, text, x, w, y, c);
        assert st.lines + p + [a + w + b] + q == st.lines + [a + w + b];
      }
  }

  /** The lines of the walk: lines without `c`, the line holding the word, lines without `c`. */
  lemma RunLines(before: seq<Token>, t: Token, after: seq<Token>, x: string, w: string, y: string, c: char)
      returns (pre: seq<string>, a: string, b: string, post: seq<string>)
    requires t.value == x + w + y && w != [] && NoSpace(w) && !IsSpace(c)
    requires Lacks(x, c) && Lacks(y, c) && AllLack(before, c) && AllLack(after, c)
    ensures Run(before + [t] + after).lines == pre + [a + w + b] + post
    ensures LinesLack(pre, c) && LinesLack(post, c) && Lacks(a, c) && Lacks(b, c)
  {
    var more := RunAppend(before + [t], after);
    RunSnoc(before, t);
    var first := Run(before).lines;
    var p, q;
    p, a, b, q := StepSplit(Run(before), t, x, w, y, c);
    RunNonSpace(before);
    ConcatLacks(before, c);
    LinesLackFromText(first, Concat(before), c);
    ConcatLacks(after, c);
    LinesLackFromText(more, Concat(after), c);
    pre, post := first + p, q + more;
    LinesLackAppend(first, p, c);
    LinesLackAppend(q, more, c);
    assert Run(before + [t]).lines == first + p + [a + w + b] + q;
    Regroup5(first, p, [a + w + b], q, more);
  }

  lemma Regroup5<T>(f: seq<T>, p: seq<T>, m: seq<T>, q: seq<T>, r: seq<T>)
    ensures (f + p + m + q) + r == (f + p) + m + (q + r)
  {
  }

  /** Joining such lines gives text without `c`, the word, and text without `c`. */
  lemma JoinSplit(pre: seq<string>, a: string, w: string, b: string, post: seq<string>, c: char)
      returns (left: string, right: string)
    requires LinesLack(pre, c) && LinesLack(post, c) && Lacks(a, c) && Lacks(b, c) && c != '\n'
    ensures Join(pre + [a + w + b] + post, "\n") == left + w + right
    ensures Lacks(left, c) && Lacks(right, c)
  {
    JoinAround(pre, a + w + b, post, "\n");
    assert Lacks("\n", c);
    JoinLacks(pre, "\n", c);
    JoinLacks(post, "\n", c);
    var lead := Lead(pre, "\n");
    var trail := Trail(post, "\n");
    left := lead + a;
    right := b + trail;
    if pre != [] {
      LacksConcat(Join(pre, "\n"), "\n", c);
    }
    if post != [] {
      LacksConcat("\n", Join(post, "\n"), c);
    }
    LacksConcat(lead, a, c);
    LacksConcat(b, trail, c);
    assert lead + (a + w + b) + trail == left + w + right;
  }

  /**
   * Tokens around the one holding the word hold no `c`, and neither do the
   * parts of that token beside the word: the joined lines are then some text
   * without `c`, the word, and some more text without `c`.
   */
  lemma RunSplit(before: seq<Token>, t: Token, after: seq<Token>, x: string, w: string, y: string, c: char)
      returns (left: string, right: string)
    requires t.value == x + w + y && w != [] && NoSpace(w) && !IsSpace(c)
    requires Lacks(x, c) && Lacks(y, c) && AllLack(before, c) && AllLack(after, c)
    ensures Join(Run(before + [t] + after).lines, "\n") == left + w + right
    ensures Lacks(left, c) && Lacks(right, c)
  {
    var pre, a, b, post := RunLines(before, t, after, x, w, y, c);
    left, right := JoinSplit(pre, a, w, b, post, c);
  }
}
