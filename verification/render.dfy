/**
 * The render service (src/hook/useTwigService.ts): pull missing helper names
 * out of an engine error, register stubs for them, build the `<head>`
 * content and the diagnostic document, and drive one render with at most one
 * retry. The Twig engine is an oracle: whether compiling throws, and what the
 * first and second `render` call give; `JSON.parse` and the link rewriting
 * are parameters too.
 */
module TwigService {
  import opened Wrappers
  import opened Text
  import opened Stores
  import opened Normalizer

  // ------------------------------------------------------------ extractMissingFromError (lines 68-121)

  datatype Kind = FunctionKind | FilterKind | TestKind

  /** The candidate kinds, in the order they are tried (lines 76-104). */
  const Kinds: seq<Kind> := [FunctionKind, FilterKind, TestKind]

  /** Each kind has three patterns. */
  const PatternCount: nat := 3

  /**
   * What `message.match(rx)` captures in group 1 for the `p`-th pattern of a
   * kind, if it matches. Every pattern captures `[a-zA-Z_][\w]*`.
   */
  type Matcher = (Kind, nat) -> Option<string>

  datatype Missing = Missing(functions: seq<string>, filters: seq<string>, tests: seq<string>)

  /** `[a-zA-Z_][\w]*` */
  predicate IsIdentifier(s: string) {
    s != [] && IsIdentStart(s[0]) && forall i :: 0 <= i < |s| ==> IsWordChar(s[i])
  }

  predicate NoDuplicates(names: seq<string>) {
    forall i, j :: 0 <= i < j < |names| ==> names[i] != names[j]
  }

  /** `m && m[1]`: a match with a non-empty capture. */
  predicate Captures(c: Option<string>) { c.Some? && c.value != [] }

  /** The names collected for a kind after its first `n` patterns. */
  function Names(matcher: Matcher, kind: Kind, n: nat): (r: seq<string>)
    ensures |r| <= n
  {
    if n == 0 then []
    else
      var prev := Names(matcher, kind, n - 1);
      var c := matcher(kind, n - 1);
      if Captures(c) && c.value !in prev then prev + [c.value] else prev
  }

  /** The names are the non-empty captures of the patterns, each once. */
  lemma {:induction false} NamesSpec(matcher: Matcher, kind: Kind, n: nat)
    ensures NoDuplicates(Names(matcher, kind, n))
    ensures forall x :: x in Names(matcher, kind, n) <==> exists p :: 0 <= p < n && matcher(kind, p) == Some(x) && x != []
  {
    if n > 0 {
      NamesSpec(matcher, kind, n - 1);
      var prev := Names(matcher, kind, n - 1);
      var c := matcher(kind, n - 1);
      forall x ensures x in Names(matcher, kind, n) <==> exists p :: 0 <= p < n && matcher(kind, p) == Some(x) && x != [] {
        if exists p :: 0 <= p < n && matcher(kind, p) == Some(x) && x != [] {
          var p :| 0 <= p < n && matcher(kind, p) == Some(x) && x != [];
          if p < n - 1 {
            assert x in prev;
          }
        }
      }
    }
  }

  /** One more pattern keeps the names found so far at the front. */
  lemma NamesStep(matcher: Matcher, kind: Kind, n: nat)
    requires n > 0
    ensures Names(matcher, kind, n - 1) <= Names(matcher, kind, n)
  {
  }

  function MissingOf(matcher: Matcher): Missing {
    Missing(Names(matcher, FunctionKind, PatternCount), Names(matcher, FilterKind, PatternCount),
            Names(matcher, TestKind, PatternCount))
  }

  /** How many patterns of kind `i` the nested loops have tried at outer step `k`, inner step `p`. */
  function Tried(k: nat, p: nat, i: nat): nat {
    if i < k then PatternCount else if i == k then p else 0
  }

  /** The nested loops over the candidates and their patterns. */
  method ExtractMissing(matcher: Matcher) returns (missing: Missing)
    ensures missing == MissingOf(matcher)
  {
    var functions: seq<string> := [];
    var filters: seq<string> := [];
    var tests: seq<string> := [];
    for k := 0 to |Kinds|
      invariant functions == Names(matcher, FunctionKind, Tried(k, 0, 0))
      invariant filters == Names(matcher, FilterKind, Tried(k, 0, 1))
      invariant tests == Names(matcher, TestKind, Tried(k, 0, 2))
    {
      var kind := Kinds[k];
      for p := 0 to PatternCount
        invariant functions == Names(matcher, FunctionKind, Tried(k, p, 0))
        invariant filters == Names(matcher, FilterKind, Tried(k, p, 1))
        invariant tests == Names(matcher, TestKind, Tried(k, p, 2))
      {
        var m := matcher(kind, p);
        if Captures(m) {
          if kind == FunctionKind && m.value !in functions {
            functions := functions + [m.value];
          }
          if kind == FilterKind && m.value !in filters {
            filters := filters + [m.value];
          }
          if kind == TestKind && m.value !in tests {
            tests := tests + [m.value];
          }
        }
      }
    }
    missing := Missing(functions, filters, tests);
  }

  /** Names only grow at the end: a name found by an earlier pattern stays before later ones. */
  lemma {:induction false} NamesGrowAtEnd(matcher: Matcher, kind: Kind, m: nat, n: nat)
    requires m <= n
    ensures Names(matcher, kind, m) <= Names(matcher, kind, n)
    decreases n - m
  {
    if m < n {
      NamesGrowAtEnd(matcher, kind, m, n - 1);
      NamesStep(matcher, kind, n);
      PrefixTrans(Names(matcher, kind, m), Names(matcher, kind, n - 1), Names(matcher, kind, n));
    }
  }

  lemma PrefixTrans(a: seq<string>, b: seq<string>, c: seq<string>)
    requires a <= b && b <= c
    ensures a <= c
  {
    assert forall i :: 0 <= i < |a| ==> a[i] == b[i] == c[i];
  }

  /**
   * Each list is duplicate-free, holds at most one name per pattern, and holds
   * only identifiers when the patterns capture identifiers.
   */
  lemma MissingShape(matcher: Matcher)
    requires forall k, p :: matcher(k, p).Some? && matcher(k, p).value != [] ==> IsIdentifier(matcher(k, p).value)
    ensures var missing := MissingOf(matcher);
      && NoDuplicates(missing.functions) && NoDuplicates(missing.filters) && NoDuplicates(missing.tests)
      && |missing.functions| <= 3 && |missing.filters| <= 3 && |missing.tests| <= 3
      && (forall x :: x in missing.functions ==> IsIdentifier(x))
      && (forall x :: x in missing.filters ==> IsIdentifier(x))
      && (forall x :: x in missing.tests ==> IsIdentifier(x))
  {
    NamesSpec(matcher, FunctionKind, PatternCount);
    NamesSpec(matcher, FilterKind, PatternCount);
    NamesSpec(matcher, TestKind, PatternCount);
  }

  /** Nothing is missing when no pattern captures a name. */
  predicate NoneMissing(missing: Missing) {
    missing.functions == [] && missing.filters == [] && missing.tests == []
  }

  /** A kind none of whose first `n` patterns captures anything has no names. */
  lemma {:induction false} NamesEmpty(matcher: Matcher, kind: Kind, n: nat)
    requires forall p :: 0 <= p < n ==> !Captures(matcher(kind, p))
    ensures Names(matcher, kind, n) == []
  {
    if n > 0 {
      NamesEmpty(matcher, kind, n - 1);
    }
  }

  lemma NoneMissingIff(matcher: Matcher)
    ensures NoneMissing(MissingOf(matcher)) <==> forall k, p :: 0 <= p < PatternCount ==> !Captures(matcher(k, p))
  {
    if forall k, p :: 0 <= p < PatternCount ==> !Captures(matcher(k, p)) {
      NamesEmpty(matcher, FunctionKind, PatternCount);
      NamesEmpty(matcher, FilterKind, PatternCount);
      NamesEmpty(matcher, TestKind, PatternCount);
    } else {
      var k, p :| 0 <= p < PatternCount && Captures(matcher(k, p));
      var x := matcher(k, p).value;
      NamesSpec(matcher, k, PatternCount);
      assert x in Names(matcher, k, PatternCount);
      var missing := MissingOf(matcher);
      assert x in missing.functions || x in missing.filters || x in missing.tests by {
        match k
        case FunctionKind => assert Names(matcher, k, PatternCount) == missing.functions;
        case FilterKind => assert Names(matcher, k, PatternCount) == missing.filters;
        case TestKind => assert Names(matcher, k, PatternCount) == missing.tests;
      }
    }
  }

  // ------------------------------------------------------------ the helper registry

  /** What a registered name stands for. */
  datatype Helper = Builtin | FunctionStub | FilterStub | TestStub

  /** The names after registering `helper` under each of `names`, in order. */
  function Stubbed(m: map<string, Helper>, names: seq<string>, helper: Helper): map<string, Helper>
    decreases |names|
  {
    if names == [] then m else Stubbed(m, names[..|names| - 1], helper)[names[|names| - 1] := helper]
  }

  /** Every listed name now stands for the stub; every other name is as it was. */
  lemma {:induction false} StubbedSpec(m: map<string, Helper>, names: seq<string>, helper: Helper)
    ensures forall x :: x in names ==> x in Stubbed(m, names, helper) && Stubbed(m, names, helper)[x] == helper
    ensures forall x :: x !in names ==> (x in Stubbed(m, names, helper) <==> x in m)
    ensures forall x :: x !in names && x in m ==> Stubbed(m, names, helper)[x] == m[x]
    decreases |names|
  {
    if names != [] {
      var init := names[..|names| - 1];
      StubbedSpec(m, init, helper);
      assert forall x :: x in names ==> x in init || x == names[|names| - 1];
    }
  }

  lemma StubbedLast(m: map<string, Helper>, names: seq<string>, j: nat, helper: Helper)
    requires j < |names|
    ensures Stubbed(m, names[..j + 1], helper) == Stubbed(m, names[..j], helper)[names[j] := helper]
  {
    assert names[..j + 1][..j] == names[..j];
  }

  const BuiltinFunctions: set<string> := {"now", "range", "asset", "path", "url", "dump", "trans", "translate"}
  const BuiltinFilters: set<string> := {"year", "dateFormat", "json_encode", "lower", "upper", "trim"}

  function WithBuiltins(m: map<string, Helper>, names: set<string>): map<string, Helper> {
    map x | x in m.Keys + names :: if x in names then Builtin else m[x]
  }

  /** The engine's global registry of functions, filters and tests. */
  class Registry {
    var functions: map<string, Helper>
    var filters: map<string, Helper>
    var tests: map<string, Helper>
    /** Whether the library offers `extendTest`. */
    const canExtendTest: bool

    constructor(canExtendTest: bool)
      ensures functions == map[] && filters == map[] && tests == map[] && this.canExtendTest == canExtendTest
    {
      functions, filters, tests := map[], map[], map[];
      this.canExtendTest := canExtendTest;
    }

    /** The helpers `renderHtml` registers on every run (lines 300-324, 333-348, 123-176). */
    method RegisterBuiltins()
      modifies this
      ensures functions == WithBuiltins(old(functions), BuiltinFunctions)
      ensures filters == WithBuiltins(old(filters), BuiltinFilters)
      ensures tests == old(tests)
    {
      functions := WithBuiltins(functions, BuiltinFunctions);
      filters := WithBuiltins(filters, BuiltinFilters);
    }

    /** `registerStubs` (lines 178-230): tests only when `extendTest` exists. */
    method RegisterStubs(missing: Missing)
      modifies this
      ensures functions == Stubbed(old(functions), missing.functions, FunctionStub)
      ensures filters == Stubbed(old(filters), missing.filters, FilterStub)
      ensures tests == if canExtendTest then Stubbed(old(tests), missing.tests, TestStub) else old(tests)
    {
      for j := 0 to |missing.functions|
        invariant functions == Stubbed(old(functions), missing.functions[..j], FunctionStub)
        invariant filters == old(filters) && tests == old(tests)
      {
        StubbedLast(old(functions), missing.functions, j, FunctionStub);
        functions := functions[missing.functions[j] := FunctionStub];
      }
      assert missing.functions[..|missing.functions|] == missing.functions;
      for j := 0 to |missing.filters|
        invariant functions == Stubbed(old(functions), missing.functions, FunctionStub)
        invariant filters == Stubbed(old(filters), missing.filters[..j], FilterStub)
        invariant tests == old(tests)
      {
        StubbedLast(old(filters), missing.filters, j, FilterStub);
        filters := filters[missing.filters[j] := FilterStub];
      }
      assert missing.filters[..|missing.filters|] == missing.filters;
      if canExtendTest {
        for j := 0 to |missing.tests|
          invariant functions == Stubbed(old(functions), missing.functions, FunctionStub)
          invariant filters == Stubbed(old(filters), missing.filters, FilterStub)
          invariant tests == Stubbed(old(tests), missing.tests[..j], TestStub)
        {
          StubbedLast(old(tests), missing.tests, j, TestStub);
          tests := tests[missing.tests[j] := TestStub];
        }
        assert missing.tests[..|missing.tests|] == missing.tests;
      }
    }
  }

  // ------------------------------------------------------------ what the stubs do (lines 183-229)

  /** The JavaScript values a template hands to a helper; numbers are integers here. */
  datatype JsValue = Undefined | Null | Bool(b: bool) | Number(n: int) | Str(s: string) | Object(text: string)

  function IntToString(n: int): string {
    if n < 0 then "-" + NatToString(-n) else NatToString(n)
  }

  /** `String(v)`; an object's conversion is whatever its `toString` gives. */
  function ToStr(v: JsValue): string {
    match v
    case Undefined => "undefined"
    case Null => "null"
    case Bool(b) => if b then "true" else "false"
    case Number(n) => IntToString(n)
    case Str(s) => s
    case Object(text) => text
  }

  /** `Boolean(v)` */
  predicate Truthy(v: JsValue) {
    match v
    case Undefined => false
    case Null => false
    case Bool(b) => b
    case Number(n) => n != 0
    case Str(s) => s != []
    case Object(_) => true
  }

  /** A stub function returns the empty string whatever it is given. */
  function CallFunctionStub(args: seq<JsValue>): string {
    []
  }

  /** The stub filter's `identity`. */
  function ApplyFilterStub(v: JsValue): string {
    if v.Null? || v.Undefined? then [] else if v.Str? then v.s else ToStr(v)
  }

  /** A stub test is `Boolean(value)`: false exactly on JavaScript's falsy values
      (`undefined`, `null`, `false`, `0` and `""`; NaN and `-0` have no integer here). */
  function ApplyTestStub(v: JsValue): (r: bool)
    ensures !r <==> v == Undefined || v == Null || v == Bool(false) || v == Number(0) || v == Str([])
    ensures v.Object? ==> r
  {
    Truthy(v)
  }

  /** The stub filter is `String(v)` except that null and undefined give the empty string. */
  lemma FilterStubIsString(v: JsValue)
    ensures ApplyFilterStub(v) == (if v.Null? || v.Undefined? then [] else ToStr(v))
    ensures v.Str? ==> ApplyFilterStub(v) == v.s
  {
  }

  // ------------------------------------------------------------ buildHtmlHead (lines 232-261)

  function TitleLine(title: string): string { "<title>" + title + "</title>" }
  function MetaLine(name: string, content: string): string {
    "<meta name=\"" + name + "\" content=\"" + content + "\">"
  }

  /** The line for a field, when the field is non-empty. */
  function Line(present: bool, line: string): seq<string> {
    if present then [line] else []
  }

  /** The head lines for the non-empty fields, in the order title, viewport, description, keywords, custom. */
  function HeadLines(head: HtmlHead): seq<string> {
    Line(head.title != [], TitleLine(head.title))
    + Line(head.viewport != [], MetaLine("viewport", head.viewport))
    + Line(head.metaDescription != [], MetaLine("description", head.metaDescription))
    + Line(head.metaKeywords != [], MetaLine("keywords", head.metaKeywords))
    + Line(head.customHead != [], head.customHead)
  }

  /** Each line followed by a newline. */
  function Terminated(lines: seq<string>): string {
    if lines == [] then [] else lines[0] + "\n" + Terminated(lines[1..])
  }

  lemma {:induction false} TerminatedAppend(a: seq<string>, b: seq<string>)
    ensures Terminated(a + b) == Terminated(a) + Terminated(b)
    decreases |a|
  {
    if a == [] {
      assert a + b == b;
    } else {
      assert (a + b)[1..] == a[1..] + b;
      TerminatedAppend(a[1..], b);
    }
  }

  /** Adding a field's line adds it, and a newline, at the end of the text; an absent field adds nothing. */
  lemma {:induction false} TerminatedLine(lines: seq<string>, present: bool, line: string)
    ensures present ==> Terminated(lines + Line(present, line)) == Terminated(lines) + line + "\n"
    ensures !present ==> Terminated(lines + Line(present, line)) == Terminated(lines)
  {
    TerminatedAppend(lines, Line(present, line));
    if present {
      assert [line][1..] == [];
    } else {
      assert lines + [] == lines;
    }
  }

  /** `buildHtmlHead`: `headContent` grows field by field. */
  method BuildHtmlHead(head: HtmlHead) returns (headContent: string)
    ensures headContent == Terminated(HeadLines(head))
  {
    ghost var lines: seq<string> := [];
    headContent := [];
    if head.title != [] {
      headContent := headContent + TitleLine(head.title) + "\n";
    }
    TerminatedLine(lines, head.title != [], TitleLine(head.title));
    lines := lines + Line(head.title != [], TitleLine(head.title));
    assert lines == Line(head.title != [], TitleLine(head.title));
    if head.viewport != [] {
      headContent := headContent + MetaLine("viewport", head.viewport) + "\n";
    }
    TerminatedLine(lines, head.viewport != [], MetaLine("viewport", head.viewport));
    lines := lines + Line(head.viewport != [], MetaLine("viewport", head.viewport));
    if head.metaDescription != [] {
      headContent := headContent + MetaLine("description", head.metaDescription) + "\n";
    }
    TerminatedLine(lines, head.metaDescription != [], MetaLine("description", head.metaDescription));
    lines := lines + Line(head.metaDescription != [], MetaLine("description", head.metaDescription));
    if head.metaKeywords != [] {
      headContent := headContent + MetaLine("keywords", head.metaKeywords) + "\n";
    }
    TerminatedLine(lines, head.metaKeywords != [], MetaLine("keywords", head.metaKeywords));
    lines := lines + Line(head.metaKeywords != [], MetaLine("keywords", head.metaKeywords));
    if head.customHead != [] {
      headContent := headContent + head.customHead + "\n";
    }
    TerminatedLine(lines, head.customHead != [], head.customHead);
    lines := lines + Line(head.customHead != [], head.customHead);
    assert lines == Line(head.title != [], TitleLine(head.title))
      + Line(head.viewport != [], MetaLine("viewport", head.viewport))
      + Line(head.metaDescription != [], MetaLine("description", head.metaDescription))
      + Line(head.metaKeywords != [], MetaLine("keywords", head.metaKeywords))
      + Line(head.customHead != [], head.customHead);
  }

  lemma {:induction false} TerminatedEmpty(lines: seq<string>)
    ensures Terminated(lines) == [] <==> lines == []
    ensures lines != [] ==> Terminated(lines)[|Terminated(lines)| - 1] == '\n'
    decreases |lines|
  {
    if lines != [] {
      TerminatedEmpty(lines[1..]);
      if lines[1..] == [] {
        assert Terminated(lines) == lines[0] + "\n";
      }
    }
  }

  /** The head content is empty exactly when every field is; otherwise it ends with a newline. */
  lemma HeadEmptyIff(head: HtmlHead)
    ensures Terminated(HeadLines(head)) == [] <==>
      head.title == [] && head.viewport == [] && head.metaDescription == [] && head.metaKeywords == []
      && head.customHead == []
    ensures Terminated(HeadLines(head)) != [] ==>
      Terminated(HeadLines(head))[|Terminated(HeadLines(head))| - 1] == '\n'
  {
    TerminatedEmpty(HeadLines(head));
  }

  // ------------------------------------------------------------ buildErrorHtml (lines 16-66)

  /** `message.replace(/</g, "&lt;")` */
  function EscapeLt(message: string): (r: string)
    ensures forall i :: 0 <= i < |r| ==> r[i] != '<'
  {
    if message == [] then []
    else (if message[0] == '<' then "&lt;" else [message[0]]) + EscapeLt(message[1..])
  }

  /** Reading `&lt;` back as `<`. */
  function DecodeLt(s: string): string {
    if s == [] then []
    else if |s| >= 4 && s[..4] == "&lt;" then "<" + DecodeLt(s[4..])
    else [s[0]] + DecodeLt(s[1..])
  }

  /** A message without `&` is recovered from its escaped form. */
  lemma {:induction false} EscapeLtRoundTrip(message: string)
    requires forall i :: 0 <= i < |message| ==> message[i] != '&'
    ensures DecodeLt(EscapeLt(message)) == message
    decreases |message|
  {
    if message != [] {
      var rest := EscapeLt(message[1..]);
      EscapeLtRoundTrip(message[1..]);
      if message[0] == '<' {
        var e := "&lt;" + rest;
        assert e[..4] == "&lt;" && e[4..] == rest;
      } else {
        var e := [message[0]] + rest;
        assert e[1..] == rest;
      }
      assert message == [message[0]] + message[1..];
    }
  }

  /** The document up to the title (lines 24-58). */
  const ErrorTop: string :=
    "<!DOCTYPE html>\n"
    + "<html lang=\"en\">\n"
    + "<head>\n"
    + "  <meta charset=\"UTF-8\" />\n"
    + "  <meta name=\"viewport\" content=\"width=device-width, initial-scale=1.0\" />\n"
    + "  <title>Render Error</title>\n"
    + "  <style>\n"
    + "    :root { color-scheme: light dark; }\n"
    + "    body { font-family: ui-sans-serif, system-ui, -apple-system, Segoe UI, Roboto, Helvetica, Arial, Noto Sans, Apple Color Emoji, Segoe UI Emoji; margin: 0; padding: 16px; background: #fff; color: #111; }\n"
    + "    .wrap { max-width: 960px; margin: 0 auto; }\n"
    + "    .card { border: 1px solid #fca5a5; background: #fff1f2; color: #7f1d1d; padding: 16px; border-radius: 8px; }\n"
    + "    h1 { font-size: 18px; margin: 0 0 8px; }\n"
    + "    pre { background: #0f172a; color: #f8fafc; padding: 12px; border-radius: 6px; overflow: auto; }\n"
    + "    code { font-family: ui-monospace, SFMono-Regular, Menlo, Monaco, Consolas, \"Liberation Mono\", \"Courier New\", monospace; font-size: 12px; }\n"
    + "    .muted { color: #334155; }\n"
    + "    .hint { margin-top: 8px; font-size: 12px; }\n"
    + "  </style>\n"
    + "  <base target=\"_blank\" rel=\"noopener noreferrer\" />\n"
    + "  <meta http-equiv=\"Content-Security-Policy\" content=\"default-src 'self'; style-src 'unsafe-inline' 'self'; img-src data: *;\" />\n"
    + "  <meta name=\"referrer\" content=\"no-referrer\" />\n"
    + "  <meta name=\"robots\" content=\"noindex\" />\n"
    + "  <script>document.addEventListener('click', e => { const a = e.target.closest('a'); if (a) { a.setAttribute('target','_blank'); a.setAttribute('rel','noopener noreferrer'); } });</script>\n"
    + "  <style media=\"(prefers-color-scheme: dark)\">\n"
    + "    body { background: #0b0f19; color: #e5e7eb; }\n"
    + "    .card { border-color: #7f1d1d; background: #1c1917; color: #fecaca; }\n"
    + "    .muted { color: #94a3b8; }\n"
    + "  </style>\n"
    + "  <style>@media (max-width: 640px){ pre{ white-space: pre-wrap; word-wrap: break-word; } }</style>\n"
    + "  <meta name=\"viewport\" content=\"width=device-width, initial-scale=1.0\" />\n"
    + "</head>\n"
    + "<body>\n"
    + "  <div class=\"wrap\">\n"
    + "    <div class=\"card\">\n"
    + "      <h1>Template Render Failed</h1>\n"
    + "      <div class=\"muted\">"

  /** What stands between the title and the escaped message. */
  const CodeOpen: string := "</div>\n      <pre><code>"

  /** What stands between the escaped message and the details. */
  const CodeClose: string := "</code></pre>\n      "

  /** The rest of the document after the details. */
  const ErrorBottom: string :=
    "\n      <div class=\"hint\">Fix the error above and click Render again.</div>\n    </div>\n  </div>\n</body>\n</html>"

  /**
   * The diagnostic document around a given top: the title goes in as it is,
   * the message with every `<` escaped, then the details (empty when absent).
   */
  function ErrorDocument(top: string, title: string, message: string, details: string): string {
    top + title + CodeOpen + EscapeLt(message) + CodeClose + details + ErrorBottom
  }

  /** `buildErrorHtml(title, message, { detailsHtml })` */
  function ErrorHtml(title: string, message: string, details: string): string {
    ErrorDocument(ErrorTop, title, message, details)
  }

  /** Where the first four of seven concatenated parts stand. */
  lemma Layout(a: string, b: string, c: string, e: string, x: string, y: string, z: string)
    ensures var d := a + b + c + e + x + y + z;
      var at := |a| + |b| + |c|;
      && |d| >= at + |e|
      && d[..|a|] == a
      && d[|a|..|a| + |b|] == b
      && d[at..at + |e|] == e
  {
    var d := a + b + c + e + x + y + z;
    var at := |a| + |b| + |c|;
    assert d == (a + b + c + e) + (x + y + z);
    assert d[..|a|] == a;
    assert d[|a|..|a| + |b|] == b;
    assert d[at..at + |e|] == e;
  }

  /**
   * The document starts with the fixed top, the title stands verbatim right
   * after it, and the message follows the code tag in escaped form, with no `<`.
   */
  lemma ErrorDocumentParts(top: string, title: string, message: string, details: string)
    ensures var d := ErrorDocument(top, title, message, details);
      var at := |top| + |title| + |CodeOpen|;
      && |d| >= at + |EscapeLt(message)|
      && d[..|top|] == top
      && d[|top|..|top| + |title|] == title
      && d[at..at + |EscapeLt(message)|] == EscapeLt(message)
      && forall i :: at <= i < at + |EscapeLt(message)| ==> d[i] != '<'
  {
    var e := EscapeLt(message);
    var d := ErrorDocument(top, title, message, details);
    var at := |top| + |title| + |CodeOpen|;
    Layout(top, title, CodeOpen, e, CodeClose, details, ErrorBottom);
    forall i | at <= i < at + |e|
      ensures d[i] != '<'
    {
      assert d[i] == d[at..at + |e|][i - at];
    }
  }

  const JsonDetails: string :=
    "<div class=\"muted\">Provided JSON could not be parsed. Please fix the JSON and try again.</div>"

  function Labeled(prefix: string, names: seq<string>): (r: seq<string>)
    ensures |r| == |names|
    ensures forall i :: 0 <= i < |names| ==> r[i] == prefix + names[i]
  {
    if names == [] then [] else [prefix + names[0]] + Labeled(prefix, names[1..])
  }

  /** The stubbed items: `function:n`, then `filter:n`, then `test:n` (lines 395-403). */
  function StubLabels(missing: Missing): seq<string> {
    Labeled("function:", missing.functions) + Labeled("filter:", missing.filters) + Labeled("test:", missing.tests)
  }

  function StubDetails(missing: Missing): string {
    "<div class=\"muted\">Missing items that were stubbed: " + Join(StubLabels(missing), ", ") + "</div>"
  }

  /** One label per missing name, functions first, then filters, then tests. */
  lemma StubLabelsOrder(missing: Missing)
    ensures |StubLabels(missing)| == |missing.functions| + |missing.filters| + |missing.tests|
    ensures forall i :: 0 <= i < |missing.functions| ==> StubLabels(missing)[i] == "function:" + missing.functions[i]
    ensures forall i :: 0 <= i < |missing.filters| ==>
      StubLabels(missing)[|missing.functions| + i] == "filter:" + missing.filters[i]
    ensures forall i :: 0 <= i < |missing.tests| ==>
      StubLabels(missing)[|missing.functions| + |missing.filters| + i] == "test:" + missing.tests[i]
  {
  }

  // ------------------------------------------------------------ renderHtml (lines 297-447)

  /** What one `twig.render(context)` call does. */
  datatype Attempt = Rendered(body: string) | Threw(message: string, matcher: Matcher)

  /**
   * The engine as an oracle: the error message if compiling the template
   * throws, and the outcome of the first (0) and second (1) render of it.
   */
  datatype Engine = Engine(compile: string -> Option<string>, render: (string, nat) -> Attempt)

  /** The full document around the rendered body (lines 428-435). */
  function Page(headContent: string, body: string): string {
    "<!DOCTYPE html>\n<html lang=\"en\">\n<head>\n" + headContent + "</head>\n<body>\n" + body + "\n</body>\n</html>"
  }

  /** Which document a run sets: a diagnostic one, or the page around a rendered body. */
  datatype Doc = ErrorDoc(title: string, message: string, details: string) | PageDoc(headContent: string, body: string)

  function DocText(doc: Doc): string {
    match doc
    case ErrorDoc(title, message, details) => ErrorHtml(title, message, details)
    case PageDoc(headContent, body) => Page(headContent, body)
  }

  /** What a run leaves: the document set, how many renders ran, and the stubs registered. */
  datatype Outcome = Outcome(doc: Doc, renders: nat, stubbed: Option<Missing>)

  /** The rendering part of a run (lines 376-421): render, and on a failure naming missing helpers, once more. */
  function Attempts(template: string, head: HtmlHead, engine: Engine, links: string -> string): Outcome {
    match engine.render(template, 0)
    case Rendered(body) => Outcome(PageDoc(Terminated(HeadLines(head)), links(body)), 1, None)
    case Threw(error, matcher) =>
      var missing := MissingOf(matcher);
      if NoneMissing(missing) then Outcome(ErrorDoc("Twig render error", error, []), 1, None)
      else
        match engine.render(template, 1)
        case Rendered(body) => Outcome(PageDoc(Terminated(HeadLines(head)), links(body)), 2, Some(missing))
        case Threw(error2, _) =>
          Outcome(ErrorDoc("Twig render error after auto-stub", error2, StubDetails(missing)), 2, Some(missing))
  }

  /**
   * `renderHtml`, one run. `parseJson` gives the parse error message, if any;
   * `links` stands for `processLinksForNewTab`.
   */
  function RenderOutcome(html: string, json: string, head: HtmlHead, engine: Engine,
                         parseJson: string -> Option<string>, links: string -> string): Outcome
  {
    var template := Normalize(html);
    match engine.compile(template)
    case Some(error) => Outcome(ErrorDoc("Unexpected error", error, []), 0, None)
    case None =>
      match parseJson(json)
      case Some(error) => Outcome(ErrorDoc("Invalid JSON context", error, JsonDetails), 0, None)
      case None => Attempts(template, head, engine, links)
  }

  /** The registry after the rendering part: stubs registered when a retry was made, nothing else changed. */
  predicate StubsAfter(registry: Registry, functions: map<string, Helper>, filters: map<string, Helper>,
                       tests: map<string, Helper>, stubbed: Option<Missing>)
    reads registry
  {
    match stubbed
    case None => registry.functions == functions && registry.filters == filters && registry.tests == tests
    case Some(missing) =>
      registry.functions == Stubbed(functions, missing.functions, FunctionStub)
      && registry.filters == Stubbed(filters, missing.filters, FilterStub)
      && registry.tests == (if registry.canExtendTest then Stubbed(tests, missing.tests, TestStub) else tests)
  }

  /** The rendering part, on the registry. */
  method RenderAttempts(registry: Registry, engine: Engine, template: string, head: HtmlHead,
                        links: string -> string)
    returns (doc: Doc, renders: nat)
    modifies registry
    ensures var outcome := Attempts(template, head, engine, links);
      && doc == outcome.doc && renders == outcome.renders
      && StubsAfter(registry, old(registry.functions), old(registry.filters), old(registry.tests), outcome.stubbed)
  {
    var body: string;
    var first := engine.render(template, 0);
    renders := 1;
    match first {
      case Rendered(b) =>
        body := b;
      case Threw(error, matcher) =>
        var missing := ExtractMissing(matcher);
        if NoneMissing(missing) {
          doc := ErrorDoc("Twig render error", error, []);
          return;
        }
        registry.RegisterStubs(missing);
        var second := engine.render(template, 1);
        renders := 2;
        match second {
          case Rendered(b) =>
            body := b;
          case Threw(error2, _) =>
            doc := ErrorDoc("Twig render error after auto-stub", error2, StubDetails(missing));
            return;
        }
    }
    var processed := links(body);
    var headContent := BuildHtmlHead(head);
    doc := PageDoc(headContent, processed);
  }

  /** Compile, parse the context and render: the body of `renderHtml` after the builtins are registered. */
  method Run(registry: Registry, engine: Engine, html: string, json: string, head: HtmlHead,
             parseJson: string -> Option<string>, links: string -> string)
    returns (doc: Doc, renders: nat)
    modifies registry
    ensures var outcome := RenderOutcome(html, json, head, engine, parseJson, links);
      && doc == outcome.doc && renders == outcome.renders
      && StubsAfter(registry, old(registry.functions), old(registry.filters), old(registry.tests), outcome.stubbed)
  {
    var template := Normalize(html);
    var compileError := engine.compile(template);
    if compileError.Some? {
      doc, renders := ErrorDoc("Unexpected error", compileError.value, []), 0;
      return;
    }
    var jsonError := parseJson(json);
    if jsonError.Some? {
      doc, renders := ErrorDoc("Invalid JSON context", jsonError.value, JsonDetails), 0;
      return;
    }
    doc, renders := RenderAttempts(registry, engine, template, head, links);
  }

  /**
   * `renderHtml`: registers the helpers, compiles the normalized template,
   * parses the context, renders (retrying once with stubs), and sets the
   * resulting document in the store; a compile failure lands in the outer
   * `catch` (lines 438-445).
   */
  method RenderHtml(store: EditorStore, registry: Registry, engine: Engine,
                    parseJson: string -> Option<string>, links: string -> string)
    returns (renders: nat)
    modifies store, registry
    ensures var outcome := RenderOutcome(old(store.html), old(store.json), old(store.htmlHead), engine, parseJson, links);
      && store.renderedHtml == DocText(outcome.doc)
      && renders == outcome.renders
      && StubsAfter(registry, WithBuiltins(old(registry.functions), BuiltinFunctions),
                    WithBuiltins(old(registry.filters), BuiltinFilters), old(registry.tests), outcome.stubbed)
    ensures store.html == old(store.html) && store.json == old(store.json) && store.htmlHead == old(store.htmlHead)
  {
    registry.RegisterBuiltins();
    var doc: Doc;
    doc, renders := Run(registry, engine, store.html, store.json, store.htmlHead, parseJson, links);
    store.SetRenderedHtml(DocText(doc));
  }

  // ------------------------------------------------------------ what a run guarantees

  /**
   * At most two renders run; a second one runs only after the first threw
   * with some missing name, and then exactly those names were stubbed.
   */
  lemma AtMostOneRetry(html: string, json: string, head: HtmlHead, engine: Engine,
                       parseJson: string -> Option<string>, links: string -> string)
    ensures var outcome := RenderOutcome(html, json, head, engine, parseJson, links);
      && outcome.renders <= 2
      && (outcome.renders == 2 <==> outcome.stubbed.Some?)
      && (outcome.renders == 2 ==>
            engine.compile(Normalize(html)).None? && parseJson(json).None?
            && engine.render(Normalize(html), 0).Threw?
            && outcome.stubbed == Some(MissingOf(engine.render(Normalize(html), 0).matcher))
            && !NoneMissing(outcome.stubbed.value))
  {
  }

  /** A compile failure or a JSON error is reported before any render, with no stubs. */
  lemma EarlyErrors(html: string, json: string, head: HtmlHead, engine: Engine,
                    parseJson: string -> Option<string>, links: string -> string)
    ensures var outcome := RenderOutcome(html, json, head, engine, parseJson, links);
      && (engine.compile(Normalize(html)).Some? ==>
            outcome == Outcome(ErrorDoc("Unexpected error", engine.compile(Normalize(html)).value, []), 0, None))
      && (engine.compile(Normalize(html)).None? && parseJson(json).Some? ==>
            outcome == Outcome(ErrorDoc("Invalid JSON context", parseJson(json).value, JsonDetails), 0, None))
      && (outcome.renders == 0 <==> engine.compile(Normalize(html)).Some? || parseJson(json).Some?)
  {
  }

  /** A failure naming no missing helper is reported without a retry. */
  lemma NoMissingNoRetry(html: string, json: string, head: HtmlHead, engine: Engine,
                         parseJson: string -> Option<string>, links: string -> string)
    requires engine.compile(Normalize(html)).None? && parseJson(json).None?
    requires engine.render(Normalize(html), 0).Threw?
    requires forall k, p :: 0 <= p < PatternCount ==> !Captures(engine.render(Normalize(html), 0).matcher(k, p))
    ensures RenderOutcome(html, json, head, engine, parseJson, links)
         == Outcome(ErrorDoc("Twig render error", engine.render(Normalize(html), 0).message, []), 1, None)
  {
    NoneMissingIff(engine.render(Normalize(html), 0).matcher);
  }

  /**
   * The rendering part makes one or two renders; it gives the page exactly
   * when the last of them rendered, and then around that render's body.
   */
  lemma AttemptsPage(template: string, head: HtmlHead, engine: Engine, links: string -> string)
    ensures 1 <= Attempts(template, head, engine, links).renders <= 2
    ensures var outcome := Attempts(template, head, engine, links);
      outcome.doc.PageDoc? <==> engine.render(template, outcome.renders - 1).Rendered?
    ensures var outcome := Attempts(template, head, engine, links);
      outcome.doc.PageDoc? ==>
        outcome.doc == PageDoc(Terminated(HeadLines(head)), links(engine.render(template, outcome.renders - 1).body))
  {
  }

  /**
   * A run gives the page exactly when compiling and parsing succeeded and its
   * last render rendered, and the page is the head content around that
   * render's link-processed body; every other run gives a diagnostic document.
   */
  lemma RenderedPage(html: string, json: string, head: HtmlHead, engine: Engine,
                     parseJson: string -> Option<string>, links: string -> string)
    ensures var outcome := RenderOutcome(html, json, head, engine, parseJson, links);
      outcome.doc.PageDoc? <==>
        && engine.compile(Normalize(html)).None? && parseJson(json).None?
        && 1 <= outcome.renders && engine.render(Normalize(html), outcome.renders - 1).Rendered?
    ensures var outcome := RenderOutcome(html, json, head, engine, parseJson, links);
      outcome.doc.PageDoc? ==>
        && 1 <= outcome.renders && engine.render(Normalize(html), outcome.renders - 1).Rendered?
        && outcome.doc == PageDoc(Terminated(HeadLines(head)),
                                  links(engine.render(Normalize(html), outcome.renders - 1).body))
  {
    var template := Normalize(html);
    OutcomeCases(html, json, head, engine, parseJson, links);
    if engine.compile(template).None? && parseJson(json).None? {
      AttemptsPage(template, head, engine, links);
    }
  }

  /** A run is the attempts after a clean compile and parse, and a diagnostic otherwise. */
  lemma OutcomeCases(html: string, json: string, head: HtmlHead, engine: Engine,
                     parseJson: string -> Option<string>, links: string -> string)
    ensures var outcome := RenderOutcome(html, json, head, engine, parseJson, links);
      if engine.compile(Normalize(html)).None? && parseJson(json).None?
      then outcome == Attempts(Normalize(html), head, engine, links)
      else outcome.doc.ErrorDoc?
  {
  }
}
