/**
 * `beautifyHtmlWithTwig` (src/components/Serializer.tsx, lines 49-158): shield
 * the directives, cut the markup into tokens, walk the tokens with an indent
 * level and an optional open `pre`/`textarea`, one output line per token (or
 * per source line inside a preserved element), join, restore the directives.
 */
module Beautifier {
  import opened Wrappers
  import opened Text
  import opened Minification
  import opened Shielding
  import opened Tokenizer

  /** Elements that never take content, so never raise the indent (lines 72-74). */
  const VoidTags: set<string> :=
    {"area", "base", "br", "col", "embed", "hr", "img", "input", "link", "meta", "param", "source", "track", "wbr"}

  /** Elements whose content is kept exactly as written (line 76). */
  const PreserveTags: set<string> := {"pre", "textarea"}

  /** `Math.max(n, 0)` */
  function AtLeastZero(n: int): nat {
    if n < 0 then 0 else n
  }

  function Spaces(n: nat): (r: string)
    ensures |r| == n
    ensures forall i :: 0 <= i < n ==> r[i] == ' '
  {
    if n == 0 then [] else [' '] + Spaces(n - 1)
  }

  /** `pushLine`: two spaces per indent level, then the content. */
  function Indented(level: int, content: string): string {
    Spaces(2 * AtLeastZero(level)) + content
  }

  // ------------------------------------------------------------ classifying a tag

  /** `[a-zA-Z0-9:-]` */
  predicate IsNameChar(c: char) { IsAsciiLetter(c) || IsDigit(c) || c == ':' || c == '-' }

  /** Length of the leading run of name characters. */
  function NameRun(u: string): (n: nat)
    ensures n <= |u|
    decreases |u|
  {
    if u != [] && IsNameChar(u[0]) then 1 + NameRun(u[1..]) else 0
  }

  /** `getTagName`: the name matched by `^<\/?\s*([a-zA-Z0-9:-]+)`, lower-cased;
      empty when there is none. */
  function TagName(raw: string): string {
    if raw == [] || raw[0] != '<' then []
    else
      var a := if |raw| >= 2 && raw[1] == '/' then 2 else 1;
      var b := a + SpaceRun(raw[a..]);
      Lower(raw[b..b + NameRun(raw[b..])])
  }

  /** `/^<!--/` */
  predicate IsComment(raw: string) { |raw| >= 4 && raw[0] == '<' && raw[1] == '!' && raw[2] == '-' && raw[3] == '-' }

  /** `/^<![^-]/i` */
  predicate IsDoctype(raw: string) { |raw| >= 3 && raw[0] == '<' && raw[1] == '!' && raw[2] != '-' }

  /** `/^<\//` */
  predicate IsClosing(raw: string) { |raw| >= 2 && raw[0] == '<' && raw[1] == '/' }

  /** `/\/>\s*$/` */
  predicate IsSelfClosing(raw: string) {
    var t := TrimEnd(raw);
    |t| >= 2 && t[|t| - 2] == '/' && t[|t| - 1] == '>'
  }

  // ------------------------------------------------------------ text

  /** `replace(/\s+/g, ' ')`: every whitespace run becomes one space. */
  function CollapseSpace(s: string): string
    decreases |s|
  {
    if s == [] then []
    else if IsSpace(s[0]) then [' '] + CollapseSpace(s[SpaceRun(s)..])
    else [s[0]] + CollapseSpace(s[1..])
  }

  /** `split(/\r?\n/)` */
  function SplitLines(s: string): (r: seq<string>)
    ensures |r| >= 1
    decreases |s|
  {
    if s == [] then [[]]
    else if s[0] == '\n' then [[]] + SplitLines(s[1..])
    else if |s| >= 2 && s[0] == '\r' && s[1] == '\n' then [[]] + SplitLines(s[2..])
    else
      var r := SplitLines(s[1..]);
      [[s[0]] + r[0]] + r[1..]
  }

  // ------------------------------------------------------------ the walk

  /** `indentLevel`, `inPreserve` and `lines` between two tokens. */
  datatype State = State(indent: int, preserve: Option<string>, lines: seq<string>)

  const Start: State := State(0, None, [])

  /** What a tag token does to the state (lines 101-136). */
  function TagStep(st: State, raw: string): State {
    var name := TagName(raw);
    var closing := IsClosing(raw);
    var selfClosing := IsSelfClosing(raw);
    if st.preserve.Some? && !(closing && name == st.preserve.value) then
      st.(lines := st.lines + [raw])
    else if IsComment(raw) || IsDoctype(raw) then
      st.(lines := st.lines + [Indented(st.indent, Trim(raw))])
    else if closing && !selfClosing && name !in VoidTags then
      var level := AtLeastZero(st.indent - 1);
      State(level, if st.preserve.Some? && name == st.preserve.value then None else st.preserve,
            st.lines + [Indented(level, Trim(raw))])
    else if !closing && !selfClosing && name !in VoidTags then
      State(st.indent + 1, if name in PreserveTags then Some(name) else st.preserve,
            st.lines + [Indented(st.indent, Trim(raw))])
    else
      st.(lines := st.lines + [Indented(st.indent, Trim(raw))])
  }

  /** What a text token does to the state (lines 137-150). */
  function TextStep(st: State, text: string): State {
    if text == [] then st
    else if st.preserve.Some? then st.(lines := st.lines + SplitLines(text))
    else
      var trimmed := Trim(CollapseSpace(text));
      if trimmed == [] then st else st.(lines := st.lines + [Indented(st.indent, trimmed)])
  }

  function Step(st: State, t: Token): State {
    match t
    case TagToken(raw) => TagStep(st, raw)
    case TextToken(text) => TextStep(st, text)
  }

  /** The state after the given tokens, taken in order from the start. */
  function Run(tokens: seq<Token>): State
    decreases |tokens|
  {
    if tokens == [] then Start else Step(Run(tokens[..|tokens| - 1]), tokens[|tokens| - 1])
  }

  /** The loop body for a tag token (lines 101-136). */
  method VisitTag(indent0: int, preserve0: Option<string>, lines0: seq<string>, raw: string)
    returns (indent: int, preserve: Option<string>, lines: seq<string>)
    ensures State(indent, preserve, lines) == TagStep(State(indent0, preserve0, lines0), raw)
  {
    indent, preserve, lines := indent0, preserve0, lines0;
    var name := TagName(raw);
    var closing := IsClosing(raw);
    var selfClosing := IsSelfClosing(raw);
    if preserve.Some? && !(closing && name == preserve.value) {
      lines := lines + [raw];
      return;
    }
    if IsComment(raw) || IsDoctype(raw) {
      lines := lines + [Indented(indent, Trim(raw))];
      return;
    }
    var isVoid := name in VoidTags;
    if closing && !selfClosing && !isVoid {
      indent := AtLeastZero(indent - 1);
      lines := lines + [Indented(indent, Trim(raw))];
      if preserve.Some? && name == preserve.value {
        preserve := None;
      }
      return;
    }
    lines := lines + [Indented(indent, Trim(raw))];
    if !closing && !selfClosing && !isVoid {
      if name in PreserveTags {
        preserve := Some(name);
      }
      indent := indent + 1;
    }
  }

  /** The loop body for a text token (lines 137-150). */
  method VisitText(indent: int, preserve: Option<string>, lines0: seq<string>, text: string)
    returns (lines: seq<string>)
    ensures State(indent, preserve, lines) == TextStep(State(indent, preserve, lines0), text)
  {
    lines := lines0;
    if text == [] {
      return;
    }
    if preserve.Some? {
      var rawLines := SplitLines(text);
      for j := 0 to |rawLines|
        invariant lines == lines0 + rawLines[..j]
      {
        lines := lines + [rawLines[j]];
      }
      assert rawLines[..|rawLines|] == rawLines;
    } else {
      var trimmed := Trim(CollapseSpace(text));
      if trimmed != [] {
        lines := lines + [Indented(indent, trimmed)];
      }
    }
  }

  lemma RunLast(tokens: seq<Token>, k: nat)
    requires k < |tokens|
    ensures Run(tokens[..k + 1]) == Step(Run(tokens[..k]), tokens[k])
  {
    assert tokens[..k + 1][..k] == tokens[..k];
  }

  /** The `for (const token of tokens)` loop (lines 86-151). */
  method Walk(tokens: seq<Token>) returns (lines: seq<string>)
    ensures lines == Run(tokens).lines
  {
    var indent: int := 0;
    var preserve: Option<string> := None;
    lines := [];
    for k := 0 to |tokens|
      invariant State(indent, preserve, lines) == Run(tokens[..k])
    {
      RunLast(tokens, k);
      match tokens[k]
      case TagToken(raw) =>
        indent, preserve, lines := VisitTag(indent, preserve, lines, raw);
      case TextToken(text) =>
        lines := VisitText(indent, preserve, lines, text);
    }
    assert tokens[..|tokens|] == tokens;
  }
}
