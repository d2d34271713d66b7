/**
 * `beautifyHtmlWithTwig` as a whole (src/components/Serializer.tsx, lines
 * 49-158): an empty source comes back as it is; otherwise the directives are
 * shielded, the text is cut into tokens, the tokens are walked into lines,
 * the lines are joined with `\n` and the directives are put back.
 *
 * As written, the tokenizer drops a `<` that starts no tag (the regular
 * expression of line 79 matches it in neither alternative) and the directives
 * are put back by one global replace; `Beautify` is the corrected pipeline,
 * which keeps a stray `<` as text and restores nested directives.
 */
module Pretty {
  import opened Wrappers
  import opened Text
  import opened Minification
  import opened Shielding
  import opened ShieldProofs
  import opened Tokenizer
  import opened Beautifier
  import opened LayoutProofs
  import opened OneDirective

  /** Tokens, walk and join (lines 79-153) of a shielded text; `keepStray`
      chooses the corrected tokenizer over the one as written. */
  function Layout(t: string, keepStray: bool): string {
    Join(Run(if keepStray then Tokens(t) else TokensAsWritten(t)).lines, "\n")
  }

  /** The beautifier as intended: stray `<` kept, nested directives restored. */
  function Beautify(source: string): (r: string)
    ensures source == [] ==> r == []
    ensures Lacks(source, '{') && Lacks(source, '_') ==> r == Layout(source, true) && NonSpace(r) == NonSpace(source)
  {
    PlainBeautify(source);
    if source == [] then source
    else Restore(Layout(Shield(source).text, true), Shield(source).blocks)
  }

  /** The beautifier as written (lines 49-158). */
  function BeautifyAsWritten(source: string): (r: string)
    ensures source == [] ==> r == []
    ensures Lacks(source, '{') && Lacks(source, '_') ==>
      r == Layout(source, false) && Without(NonSpace(r), '<') == Without(NonSpace(source), '<')
  {
    PlainBeautify(source);
    if source == [] then source
    else RestoreFlat(Layout(Shield(source).text, false), Shield(source).blocks)
  }

  /** `beautifyHtmlWithTwig(source)` step by step (lines 49-158). */
  method BeautifyHtml(source: string) returns (pretty: string)
    ensures pretty == BeautifyAsWritten(source)
  {
    if source == [] {
      return source;
    }
    var shielded := ShieldText(source);
    var tokens := Tokenize(shielded.text);
    var lines := Walk(tokens);
    pretty := RestoreFlat(Join(lines, "\n"), shielded.blocks);
  }

  // ------------------------------------------------------------ what the layout keeps

  /** Removing a non-space character and removing whitespace commute. */
  lemma {:induction false} WithoutNonSpace(s: string, x: char)
    requires !IsSpace(x)
    ensures Without(NonSpace(s), x) == NonSpace(Without(s, x))
    decreases |s|
  {
    if s != [] {
      WithoutNonSpace(s[1..], x);
      var head := if IsSpace(s[0]) then [] else [s[0]];
      WithoutAppend(head, NonSpace(s[1..]), x);
      var kept := if s[0] == x then [] else [s[0]];
      NonSpaceAppend(kept, Without(s[1..], x));
    }
  }

  /** The layout changes only whitespace, and as written it also drops stray `<`. */
  lemma LayoutKeeps(t: string)
    ensures NonSpace(Layout(t, true)) == NonSpace(t)
    ensures Without(NonSpace(Layout(t, false)), '<') == Without(NonSpace(t), '<')
  {
    RunNonSpace(Tokens(t));
    var tokens := TokensAsWritten(t);
    RunNonSpace(tokens);
    WithoutNonSpace(Concat(tokens), '<');
    WithoutNonSpace(t, '<');
  }

  /** The layout brings in no character other than whitespace. */
  lemma LayoutLacks(t: string, keepStray: bool, c: char)
    requires Lacks(t, c) && !IsSpace(c)
    ensures Lacks(Layout(t, keepStray), c)
  {
    assert t[0..] == t;
    ScanLacks(t, 0, keepStray, c);
    var tokens := if keepStray then Tokens(t) else TokensAsWritten(t);
    ConcatLacks(tokens, c);
    RunNonSpace(tokens);
    LacksNonSpace(Concat(tokens), c);
    LacksNonSpace(Layout(t, keepStray), c);
  }

  /** Without `{` and `_`, nothing is shielded and the result is the layout of the source. */
  lemma PlainBeautify(source: string)
    ensures Lacks(source, '{') && Lacks(source, '_') ==>
      && Restore(Layout(Shield(source).text, true), Shield(source).blocks) == Layout(source, true)
      && RestoreFlat(Layout(Shield(source).text, false), Shield(source).blocks) == Layout(source, false)
      && NonSpace(Layout(source, true)) == NonSpace(source)
      && Without(NonSpace(Layout(source, false)), '<') == Without(NonSpace(source), '<')
  {
    if Lacks(source, '{') && Lacks(source, '_') {
      ShieldWithoutBrace(source);
      LayoutLacks(source, true, '_');
      LayoutLacks(source, false, '_');
      NoUnderscore(Layout(source, true));
      NoUnderscore(Layout(source, false));
      RestoreWithoutPrefix(Layout(source, true), []);
      RestoreWithoutPrefix(Layout(source, false), []);
      LayoutKeeps(source);
    }
  }

  // ------------------------------------------------------------ a directive in the markup

  /** The placeholder is one run of word characters: no whitespace, no `<`, no `>`. */
  lemma PlaceholderShape(k: nat)
    ensures Placeholder(k) != [] && Placeholder(k)[0] == '_' && NoSpace(Placeholder(k))
    ensures forall j :: 0 <= j < |Placeholder(k)| ==> Placeholder(k)[j] != '<' && Placeholder(k)[j] != '>'
  {
    var p := Placeholder(k);
    assert p[..|Prefix|] == Prefix;
    assert p[0] == Prefix[0];
    forall j | 0 <= j < |p| ensures !IsSpace(p[j]) && p[j] != '<' && p[j] != '>' {
      assert IsWordChar(p[j]);
    }
  }

  /** The placeholder comes out of the layout whole, between text that holds no `_`. */
  lemma LayoutAroundPlaceholder(a: string, b: string, keepStray: bool) returns (left: string, right: string)
    requires Lacks(a, '_') && Lacks(b, '_')
    ensures Layout(a + Placeholder(0) + b, keepStray) == left + Placeholder(0) + right
    ensures Lacks(left, '_') && Lacks(right, '_')
  {
    var p := Placeholder(0);
    var s := a + p + b;
    PlaceholderShape(0);
    assert s[|a|..|a| + |p|] == p;
    assert s[0..|a|] == a;
    assert s[|a| + |p|..] == b;
    var before, t, after, x, y := ScanSplit(s, 0, keepStray, |a|, p, '_');
    left, right := RunSplit(before, t, after, x, p, y, '_');
  }

  /**
   * One directive in markup without `{` or `_` elsewhere: the beautified
   * markup is the layout of the shielded markup with the directive put back
   * verbatim where its placeholder is. The layout of the shielded markup
   * does not mention the directive, so its `<`, `>` and whitespace never
   * change the tokens, the indentation or the lines around it.
   */
  lemma BeautifyDirective(a: string, open: string, x: string, close: string, b: string)
      returns (left: string, right: string)
    requires IsPair(open, close) && Inner(x)
    requires Lacks(a, '{') && Lacks(a, '_') && Lacks(b, '{') && Lacks(b, '_')
    ensures Layout(a + Placeholder(0) + b, true) == left + Placeholder(0) + right
    ensures Beautify(a + (open + x + close) + b) == left + (open + x + close) + right
    ensures Lacks(left, '_') && Lacks(right, '_')
  {
    var d := open + x + close;
    ShieldOne(a, open, x, close, b);
    assert a + d + b != [] by { assert |d| >= 4; }
    left, right := LayoutAroundPlaceholder(a, b, true);
    InnerDirective(open, x, close);
    RestoreOne(left, d, right);
  }

  /** The same for the beautifier as written. */
  lemma BeautifyDirectiveAsWritten(a: string, open: string, x: string, close: string, b: string)
      returns (left: string, right: string)
    requires IsPair(open, close) && Inner(x)
    requires Lacks(a, '{') && Lacks(a, '_') && Lacks(b, '{') && Lacks(b, '_')
    ensures Layout(a + Placeholder(0) + b, false) == left + Placeholder(0) + right
    ensures BeautifyAsWritten(a + (open + x + close) + b) == left + (open + x + close) + right
    ensures Lacks(left, '_') && Lacks(right, '_')
  {
    var d := open + x + close;
    ShieldOne(a, open, x, close, b);
    assert a + d + b != [] by { assert |d| >= 4; }
    left, right := LayoutAroundPlaceholder(a, b, false);
    InnerDirective(open, x, close);
    RestoreOne(left, d, right);
  }

  /** The index of the first `c` in `s`, or `|s|`. */
  function FirstAt(s: string, c: char): (n: nat)
    ensures n <= |s|
    decreases |s|
  {
    if s == [] || s[0] == c then 0 else 1 + FirstAt(s[1..], c)
  }

  lemma {:induction false} FirstAtCut(l: string, rest: string, c: char)
    requires Lacks(l, c) && rest != [] && rest[0] == c
    ensures FirstAt(l + rest, c) == |l|
    decreases |l|
  {
    if l == [] {
      assert l + rest == rest;
    } else {
      assert (l + rest)[1..] == l[1..] + rest;
      assert (l + rest)[0] == l[0];
      FirstAtCut(l[1..], rest, c);
    }
  }

  /** Text without `_` before a `_` is fixed by the whole. */
  lemma CutUnique(l1: string, r1: string, l2: string, r2: string, p: string)
    requires l1 + p + r1 == l2 + p + r2 && p != [] && p[0] == '_'
    requires Lacks(l1, '_') && Lacks(l2, '_')
    ensures l1 == l2 && r1 == r2
  {
    var s := l1 + p + r1;
    assert s == l1 + (p + r1) && s == l2 + (p + r2);
    FirstAtCut(l1, p + r1, '_');
    FirstAtCut(l2, p + r2, '_');
    assert l1 == s[..|l1|] && l2 == s[..|l2|];
    assert r1 == s[|l1| + |p|..] && r2 == s[|l2| + |p|..];
  }

  /**
   * Two directives in the same place give the same beautified markup around
   * them: what a directive holds never affects the rest of the output.
   */
  lemma DirectiveInert(a: string, b: string,
                       open1: string, x1: string, close1: string,
                       open2: string, x2: string, close2: string)
      returns (left: string, right: string)
    requires IsPair(open1, close1) && Inner(x1) && IsPair(open2, close2) && Inner(x2)
    requires Lacks(a, '{') && Lacks(a, '_') && Lacks(b, '{') && Lacks(b, '_')
    ensures Beautify(a + (open1 + x1 + close1) + b) == left + (open1 + x1 + close1) + right
    ensures Beautify(a + (open2 + x2 + close2) + b) == left + (open2 + x2 + close2) + right
  {
    left, right := BeautifyDirective(a, open1, x1, close1, b);
    var l2, r2 := BeautifyDirective(a, open2, x2, close2, b);
    PlaceholderShape(0);
    CutUnique(left, right, l2, r2, Placeholder(0));
  }
}
