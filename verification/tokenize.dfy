/**
 * The beautifier's tokenizer (src/components/Serializer.tsx, lines 78-84): a
 * global regular expression run over the shielded text, each match giving a
 * tag (or comment) token or a text token.
 */
module Tokenizer {
  import opened Wrappers
  import opened Text
  import opened Minification

  /** A piece of the shielded markup: a tag or comment, or a run of text. */
  datatype Token = TagToken(value: string) | TextToken(value: string)

  /** What one `exec` call finds: the token it yields, if any, and how far the scan moves. */
  datatype Scan = Scan(token: Option<Token>, length: nat)

  /** Index of the first `-->` in `u`: the lazy `[\s\S]*?-->`. */
  function FindCommentClose(u: string): (r: Option<nat>)
    ensures r.Some? ==> r.value + 3 <= |u| && u[r.value + 2] == '>'
    decreases |u|
  {
    if |u| < 3 then None
    else if u[0] == '-' && u[1] == '-' && u[2] == '>' then Some(0)
    else match FindCommentClose(u[1..])
      case Some(k) => Some(k + 1)
      case None => None
  }

  /** Index of the first `>` in `u`. */
  function FindGt(u: string): (r: Option<nat>)
    ensures r.Some? ==> r.value < |u| && u[r.value] == '>'
    decreases |u|
  {
    if u == [] then None
    else if u[0] == '>' then Some(0)
    else match FindGt(u[1..])
      case Some(k) => Some(k + 1)
      case None => None
  }

  /** Length of the leading run without `<`: the greedy `[^<]+`. */
  function TextRun(u: string): (n: nat)
    ensures n <= |u|
    ensures n < |u| ==> u[n] == '<'
    decreases |u|
  {
    if u != [] && u[0] != '<' then 1 + TextRun(u[1..]) else 0
  }

  /**
   * One `exec` of `(<!--[\s\S]*?-->|<[^>]+>)|([^<]+)` from the head of `u`.
   * At each position the alternatives are tried in order: a comment up to the
   * first `-->`, a `<` with at least one character before the first `>`, or a
   * run of text. A `<` that opens neither matches nothing, so the search
   * resumes one character later and that `<` belongs to no token; when nothing
   * matches in the rest of the input, `exec` returns null (no token).
   * With `keepStray` such a `<` starts a text token instead.
   */
  function Exec(u: string, keepStray: bool): (r: Scan)
    requires u != []
    ensures 0 < r.length <= |u|
    ensures r.token.None? ==> r.length == |u|
    decreases |u|
  {
    if |u| >= 4 && u[0] == '<' && u[1] == '!' && u[2] == '-' && u[3] == '-' && FindCommentClose(u[4..]).Some? then
      var n := FindCommentClose(u[4..]).value + 7;
      Scan(Some(TagToken(u[..n])), n)
    else if |u| >= 2 && u[0] == '<' && u[1] != '>' && FindGt(u[1..]).Some? then
      var n := FindGt(u[1..]).value + 2;
      Scan(Some(TagToken(u[..n])), n)
    else if u[0] != '<' then Scan(Some(TextToken(u[..TextRun(u)])), TextRun(u))
    else if keepStray then Scan(Some(TextToken(u[..1 + TextRun(u[1..])])), 1 + TextRun(u[1..]))
    else if |u| == 1 then Scan(None, 1)
    else
      var r := Exec(u[1..], false);
      Scan(r.token, r.length + 1)
  }

  /** The token of `r`, if any, is the text the scan of `u` ends with. */
  predicate EndsWithToken(u: string, r: Scan) {
    r.token.Some? ==> |r.token.value.value| <= r.length <= |u|
                      && r.token.value.value == u[r.length - |r.token.value.value|..r.length]
  }

  /** The intended scan yields a token at every step, covering all it consumes. */
  predicate Covers(r: Scan) {
    r.token.Some? && |r.token.value.value| == r.length
  }

  lemma HeadToken(u: string, v: string, r: Scan)
    requires r == Scan(Some(TagToken(v)), |v|) || r == Scan(Some(TextToken(v)), |v|)
    requires |v| <= |u| && v == u[..|v|]
    ensures EndsWithToken(u, r) && Covers(r)
  {
    assert u[0..|v|] == u[..|v|];
  }

  lemma {:induction false} ExecToken(u: string, keepStray: bool)
    requires u != []
    ensures EndsWithToken(u, Exec(u, keepStray))
    ensures keepStray ==> Covers(Exec(u, keepStray))
    decreases |u|
  {
    var r := Exec(u, keepStray);
    if |u| >= 4 && u[0] == '<' && u[1] == '!' && u[2] == '-' && u[3] == '-' && FindCommentClose(u[4..]).Some? {
      HeadToken(u, u[..r.length], r);
    } else if |u| >= 2 && u[0] == '<' && u[1] != '>' && FindGt(u[1..]).Some? {
      HeadToken(u, u[..r.length], r);
    } else if u[0] != '<' || keepStray {
      HeadToken(u, u[..r.length], r);
    } else if |u| > 1 {
      ExecToken(u[1..], false);
      SkipOne(u, Exec(u[1..], false));
    }
  }

  /** A scan that skipped the first character still ends with its token. */
  lemma SkipOne(u: string, q: Scan)
    requires u != [] && EndsWithToken(u[1..], q)
    ensures EndsWithToken(u, Scan(q.token, q.length + 1))
  {
    if q.token.Some? {
      var v := q.token.value.value;
      assert u[1..][q.length - |v|..q.length] == u[q.length + 1 - |v|..q.length + 1];
    }
  }

  /** The tokens one `exec` contributes. */
  function Emitted(m: Scan): seq<Token> {
    if m.token.Some? then [m.token.value] else []
  }

  /** All the tokens of `s` from position `p` on, in order. */
  function ScanFrom(s: string, p: nat, keepStray: bool): (r: seq<Token>)
    requires p <= |s|
    decreases |s| - p, 1
  {
    if p == |s| then [] else ScanAt(s, p, keepStray)
  }

  /** The tokens of one `exec` at `p`, then the tokens of the rest. */
  function ScanAt(s: string, p: nat, keepStray: bool): seq<Token>
    requires p < |s|
    decreases |s| - p, 0
  {
    var m := Exec(s[p..], keepStray);
    Emitted(m) + ScanFrom(s, p + m.length, keepStray)
  }

  /** The text the tokens were cut from, put back together. */
  function Concat(tokens: seq<Token>): string {
    if tokens == [] then [] else tokens[0].value + Concat(tokens[1..])
  }

  /** `s` with every `x` removed. */
  function Without(s: string, x: char): string
    decreases |s|
  {
    if s == [] then [] else (if s[0] == x then [] else [s[0]]) + Without(s[1..], x)
  }

  /**
   * The tokenizer as written: every token is well shaped (a text token never
   * holds a `<`), and the tokens keep every character of the text except,
   * possibly, some `<`.
   */
  function TokensAsWritten(s: string): (r: seq<Token>)
    ensures forall t :: t in r ==> WellShaped(t, false)
    ensures Without(Concat(r), '<') == Without(s, '<')
  {
    ScanShaped(s, 0, false);
    ScanKeeps(s, 0);
    assert s[0..] == s;
    ScanFrom(s, 0, false)
  }

  /** The tokenizer as intended: a stray `<` stays in the text, so the tokens
      put back together are the text itself. */
  function Tokens(s: string): (r: seq<Token>)
    ensures forall t :: t in r ==> WellShaped(t, true)
    ensures Concat(r) == s
  {
    ScanShaped(s, 0, true);
    ScanCovers(s, 0);
    assert s[0..] == s;
    ScanFrom(s, 0, true)
  }

  lemma {:induction false} ScanAdvance(s: string, p: nat, tokens: seq<Token>, keepStray: bool)
    requires p < |s|
    ensures tokens + ScanFrom(s, p, keepStray)
         == (tokens + Emitted(Exec(s[p..], keepStray))) + ScanFrom(s, p + Exec(s[p..], keepStray).length, keepStray)
  {
    ScanFromStep(s, p, keepStray);
    AppendStep(tokens, ScanFrom(s, p, keepStray), Emitted(Exec(s[p..], keepStray)),
               ScanFrom(s, p + Exec(s[p..], keepStray).length, keepStray));
  }

  lemma AppendStep<T>(a: seq<T>, whole: seq<T>, b: seq<T>, c: seq<T>)
    requires whole == b + c
    ensures a + whole == (a + b) + c
  {
  }

  /**
   * The `while ((match = regex.exec(working)) !== null)` loop: each match is
   * pushed as a tag token or a text token, and the scan resumes where the
   * match ended; a `<` that opens nothing is passed over.
   */
  method Tokenize(s: string) returns (tokens: seq<Token>)
    ensures tokens == TokensAsWritten(s)
  {
    tokens := [];
    var p := 0;
    ghost var whole := ScanFrom(s, 0, false);
    assert tokens + whole == whole;
    while p < |s|
      invariant 0 <= p <= |s|
      invariant tokens + ScanFrom(s, p, false) == whole
      decreases |s| - p
    {
      var m := Exec(s[p..], false);
      ScanAdvance(s, p, tokens, false);
      tokens := tokens + Emitted(m);
      p := p + m.length;
    }
    assert tokens + [] == tokens;
    assert s[0..] == s;
  }

  // ------------------------------------------------------------ properties

  lemma ConcatCons(t: Token, rest: seq<Token>)
    ensures Concat([t] + rest) == t.value + Concat(rest)
  {
    assert ([t] + rest)[1..] == rest;
  }

  lemma {:induction false} ScanCovers(s: string, p: nat)
    requires p <= |s|
    ensures Concat(ScanFrom(s, p, true)) == s[p..]
    decreases |s| - p
  {
    if p < |s| {
      var m := Exec(s[p..], true);
      var q := p + m.length;
      ScanFromStep(s, p, true);
      ScanCovers(s, q);
      ExecToken(s[p..], true);
      CoverStep(s, p, m, ScanFrom(s, q, true), ScanFrom(s, p, true));
    }
  }

  lemma ScanFromStep(s: string, p: nat, keepStray: bool)
    requires p < |s|
    ensures ScanFrom(s, p, keepStray)
         == Emitted(Exec(s[p..], keepStray)) + ScanFrom(s, p + Exec(s[p..], keepStray).length, keepStray)
  {
    assert ScanFrom(s, p, keepStray) == ScanAt(s, p, keepStray);
  }

  /** One `exec` at `p`: the scan from `p` is its tokens, then the scan from
      where it ends; it ends with its token, passes over nothing but `<`, and
      its token is well shaped. */
  lemma ScanStep(s: string, p: nat, keepStray: bool) returns (m: Scan)
    requires p < |s|
    ensures 0 < m.length && p + m.length <= |s|
    ensures ScanFrom(s, p, keepStray) == Emitted(m) + ScanFrom(s, p + m.length, keepStray)
    ensures EndsWithToken(s[p..], m) && Edges(s[p..], m)
    ensures keepStray ==> Covers(m)
    ensures m.token.Some? ==> WellShaped(m.token.value, keepStray)
  {
    m := Exec(s[p..], keepStray);
    ScanFromStep(s, p, keepStray);
    ExecToken(s[p..], keepStray);
    ExecEdges(s[p..], keepStray);
    ExecShaped(s[p..], keepStray);
  }

  /** One covering token followed by tokens covering the rest covers the text from `p` on. */
  lemma CoverStep(s: string, p: nat, m: Scan, rest: seq<Token>, tokens: seq<Token>)
    requires p + m.length <= |s| && EndsWithToken(s[p..], m) && Covers(m)
    requires Concat(rest) == s[p + m.length..] && tokens == Emitted(m) + rest
    ensures Concat(tokens) == s[p..]
  {
    var v := m.token.value.value;
    ConcatCons(m.token.value, rest);
    assert v == s[p..p + m.length];
    assert s[p..] == s[p..p + m.length] + s[p + m.length..];
  }

  lemma {:induction false} TextRunAll(u: string)
    requires forall i :: 0 <= i < |u| ==> u[i] != '<'
    ensures TextRun(u) == |u|
    decreases |u|
  {
    if u != [] {
      TextRunAll(u[1..]);
    }
  }

  lemma {:induction false} TextRunLacks(u: string)
    ensures forall i :: 0 <= i < TextRun(u) ==> u[i] != '<'
    decreases |u|
  {
    if u != [] && u[0] != '<' {
      TextRunLacks(u[1..]);
    }
  }

  /**
   * As written, a `<` followed by text holding no `<` and no `>` is dropped:
   * `a < b` is scanned as the text `a ` and the text ` b`.
   */
  lemma StrayOpenerDropped(y: string)
    requires y != []
    requires forall i :: 0 <= i < |y| ==> y[i] != '<' && y[i] != '>'
    ensures TokensAsWritten(['<'] + y) == [TextToken(y)]
    ensures Concat(TokensAsWritten(['<'] + y)) != ['<'] + y
  {
    var u := ['<'] + y;
    assert u[0..] == u && u[1..] == y;
    TextRunAll(y);
    assert y[..|y|] == y;
    assert Exec(y, false) == Scan(Some(TextToken(y)), |y|);
    assert Exec(u, false) == Scan(Some(TextToken(y)), |u|);
    ScanFromStep(u, 0, false);
    assert ScanFrom(u, |u|, false) == [];
    ConcatCons(TextToken(y), []);
  }

  /** A tag token begins with `<` and ends with `>`, with something between. */
  predicate TagShaped(v: string) { |v| >= 3 && v[0] == '<' && v[|v| - 1] == '>' }

  /** What each token of a scan looks like: tags as above, text never empty,
      and, as written, text never holding a `<`. */
  predicate WellShaped(t: Token, keepStray: bool) {
    match t
    case TagToken(v) => TagShaped(v)
    case TextToken(v) => v != [] && (keepStray || forall i :: 0 <= i < |v| ==> v[i] != '<')
  }

  lemma {:induction false} ExecShaped(u: string, keepStray: bool)
    requires u != []
    ensures Exec(u, keepStray).token.Some? ==> WellShaped(Exec(u, keepStray).token.value, keepStray)
    decreases |u|
  {
    if |u| >= 4 && u[0] == '<' && u[1] == '!' && u[2] == '-' && u[3] == '-' && FindCommentClose(u[4..]).Some? {
      assert u[4..][FindCommentClose(u[4..]).value + 2] == u[FindCommentClose(u[4..]).value + 6];
    } else if |u| >= 2 && u[0] == '<' && u[1] != '>' && FindGt(u[1..]).Some? {
      assert u[1..][FindGt(u[1..]).value] == u[FindGt(u[1..]).value + 1];
    } else if u[0] != '<' {
      TextRunLacks(u);
    } else if keepStray {
      TextRunLacks(u[1..]);
    } else if |u| > 1 {
      ExecShaped(u[1..], false);
    }
  }

  lemma {:induction false} ScanShaped(s: string, p: nat, keepStray: bool)
    requires p <= |s|
    ensures forall t :: t in ScanFrom(s, p, keepStray) ==> WellShaped(t, keepStray)
    decreases |s| - p
  {
    if p < |s| {
      var m := ScanStep(s, p, keepStray);
      ScanShaped(s, p + m.length, keepStray);
      ShapedStep(m, ScanFrom(s, p + m.length, keepStray), ScanFrom(s, p, keepStray), keepStray);
    }
  }

  lemma ShapedStep(m: Scan, rest: seq<Token>, tokens: seq<Token>, keepStray: bool)
    requires tokens == Emitted(m) + rest
    requires m.token.Some? ==> WellShaped(m.token.value, keepStray)
    requires forall t :: t in rest ==> WellShaped(t, keepStray)
    ensures forall t :: t in tokens ==> WellShaped(t, keepStray)
  {
  }

  // ------------------------------------------------------------ what a scan step passes over

  /** How many characters before its token one `exec` passes over. */
  function SkipLength(m: Scan): nat {
    if m.token.Some? && |m.token.value.value| <= m.length then m.length - |m.token.value.value| else m.length
  }

  /**
   * What `m` passes over in `u` is nothing but `<`; a text token stops at a
   * `<` or at the end of `u`, and a tag token ends with `>`.
   */
  predicate Edges(u: string, m: Scan) {
    && m.length <= |u|
    && (forall i :: 0 <= i < SkipLength(m) ==> u[i] == '<')
    && (m.token.Some? && m.token.value.TextToken? ==> m.length == |u| || u[m.length] == '<')
    && (m.token.Some? && m.token.value.TagToken? ==> 0 < m.length && u[m.length - 1] == '>')
  }

  lemma {:induction false} ExecEdges(u: string, keepStray: bool)
    requires u != []
    ensures Edges(u, Exec(u, keepStray))
    decreases |u|
  {
    if |u| >= 4 && u[0] == '<' && u[1] == '!' && u[2] == '-' && u[3] == '-' && FindCommentClose(u[4..]).Some? {
      var k := FindCommentClose(u[4..]).value;
      assert u[4..][k + 2] == u[k + 6];
      TagEdges(u, k + 7);
    } else if |u| >= 2 && u[0] == '<' && u[1] != '>' && FindGt(u[1..]).Some? {
      var k := FindGt(u[1..]).value;
      assert u[1..][k] == u[k + 1];
      TagEdges(u, k + 2);
    } else if u[0] != '<' {
      TextEdges(u, TextRun(u));
    } else if keepStray {
      var n := TextRun(u[1..]);
      assert n < |u[1..]| ==> u[1..][n] == u[n + 1];
      TextEdges(u, 1 + n);
    } else if |u| > 1 {
      ExecEdges(u[1..], false);
      ExecToken(u[1..], false);
      SkipEdges(u, Exec(u[1..], false));
    }
  }

  /** A tag token at the head of `u`, ending with `>`. */
  lemma TagEdges(u: string, n: nat)
    requires 0 < n <= |u| && u[n - 1] == '>'
    ensures Edges(u, Scan(Some(TagToken(u[..n])), n))
  {
  }

  /** A text token at the head of `u`, ending at a `<` or at the end. */
  lemma TextEdges(u: string, n: nat)
    requires 0 < n <= |u| && (n == |u| || u[n] == '<')
    ensures Edges(u, Scan(Some(TextToken(u[..n])), n))
  {
  }

  /** Passing over one more `<` keeps the edges. */
  lemma SkipEdges(u: string, r: Scan)
    requires u != [] && u[0] == '<' && Edges(u[1..], r) && EndsWithToken(u[1..], r)
    ensures Edges(u, Scan(r.token, r.length + 1))
  {
    assert SkipLength(Scan(r.token, r.length + 1)) == SkipLength(r) + 1;
    forall i | 1 <= i < SkipLength(r) + 1
      ensures u[i] == '<'
    {
      assert u[i] == u[1..][i - 1];
    }
    if r.token.Some? && r.token.value.TextToken? && r.length < |u[1..]| {
      assert u[1..][r.length] == u[r.length + 1];
    }
    if r.token.Some? && r.token.value.TagToken? {
      assert u[1..][r.length - 1] == u[r.length];
    }
  }

  lemma WithoutAppend(a: string, b: string, x: char)
    ensures Without(a + b, x) == Without(a, x) + Without(b, x)
    decreases |a|
  {
    if a == [] {
      assert a + b == b;
    } else {
      assert (a + b)[1..] == a[1..] + b;
      WithoutAppend(a[1..], b, x);
    }
  }

  lemma {:induction false} WithoutAll(z: string, x: char)
    requires forall i :: 0 <= i < |z| ==> z[i] == x
    ensures Without(z, x) == []
    decreases |z|
  {
    if z != [] {
      WithoutAll(z[1..], x);
    }
  }

  /** The as-written scan from `p` on keeps every character but some `<`. */
  lemma {:induction false} ScanKeeps(s: string, p: nat)
    requires p <= |s|
    ensures Without(Concat(ScanFrom(s, p, false)), '<') == Without(s[p..], '<')
    decreases |s| - p
  {
    if p < |s| {
      var m := ScanStep(s, p, false);
      var e := p + m.length;
      ScanKeeps(s, e);
      KeepsAt(s, p, m, ScanFrom(s, e, false));
    } else {
      assert s[p..] == [];
    }
  }

  /** One step of the scan at `p`, followed by tokens that keep the rest. */
  lemma KeepsAt(s: string, p: nat, m: Scan, rest: seq<Token>)
    requires p + m.length <= |s| && Edges(s[p..], m) && EndsWithToken(s[p..], m)
    requires Without(Concat(rest), '<') == Without(s[p + m.length..], '<')
    ensures Without(Concat(Emitted(m) + rest), '<') == Without(s[p..], '<')
  {
    assert s[p..][m.length..] == s[p + m.length..];
    KeepsStep(s[p..], m, rest, s[p + m.length..]);
  }

  lemma KeepsStep(u: string, m: Scan, rest: seq<Token>, tail: string)
    requires Edges(u, m) && EndsWithToken(u, m) && tail == u[m.length..]
    requires Without(Concat(rest), '<') == Without(tail, '<')
    ensures Without(Concat(Emitted(m) + rest), '<') == Without(u, '<')
  {
    var skipped, v := StepCut(u, m);
    WithoutAll(skipped, '<');
    EmittedConcat(m, rest);
    WithoutSplice(u, skipped, v, tail, Concat(rest));
  }

  /** A step cuts `u` into the `<` it passes over, its token's text and the rest. */
  lemma StepCut(u: string, m: Scan) returns (skipped: string, v: string)
    requires Edges(u, m) && EndsWithToken(u, m)
    ensures v == (if m.token.Some? then m.token.value.value else [])
    ensures u == skipped + (v + u[m.length..])
    ensures forall i :: 0 <= i < |skipped| ==> skipped[i] == '<'
  {
    var k := SkipLength(m);
    skipped := u[..k];
    v := if m.token.Some? then m.token.value.value else [];
    assert v == u[k..m.length];
    CutThree(u, k, m.length);
  }

  lemma CutThree(u: string, i: nat, j: nat)
    requires i <= j <= |u|
    ensures u == u[..i] + (u[i..j] + u[j..])
  {
  }

  lemma EmittedConcat(m: Scan, rest: seq<Token>)
    ensures Concat(Emitted(m) + rest) == (if m.token.Some? then m.token.value.value else []) + Concat(rest)
  {
    if m.token.Some? {
      ConcatCons(m.token.value, rest);
    } else {
      assert Emitted(m) + rest == rest;
    }
  }

  lemma WithoutSplice(u: string, skipped: string, v: string, tail: string, kept: string)
    requires u == skipped + (v + tail) && Without(skipped, '<') == []
    requires Without(kept, '<') == Without(tail, '<')
    ensures Without(v + kept, '<') == Without(u, '<')
  {
    WithoutAppend(v, kept, '<');
    WithoutAppend(v, tail, '<');
    WithoutAppend(skipped, v + tail, '<');
  }

  // ------------------------------------------------------------ locating a word

  /** No token of `tokens` holds `c`. */
  predicate AllLack(tokens: seq<Token>, c: char) {
    forall j :: 0 <= j < |tokens| ==> Lacks(tokens[j].value, c)
  }

  lemma AllLackAppend(a: seq<Token>, b: seq<Token>, c: char)
    requires AllLack(a, c) && AllLack(b, c)
    ensures AllLack(a + b, c)
  {
    assert forall j :: |a| <= j < |a| + |b| ==> (a + b)[j] == b[j - |a|];
  }

  lemma LacksWithin(s: string, lo: nat, hi: nat, a: nat, b: nat, c: char)
    requires lo <= a <= b <= hi <= |s| && Lacks(s[lo..hi], c)
    ensures Lacks(s[a..b], c)
  {
    forall j | 0 <= j < b - a
      ensures s[a..b][j] != c
    {
      assert s[a..b][j] == s[lo..hi][a - lo + j];
    }
  }

  /** Text holding no `c` is cut into tokens holding no `c`. */
  lemma {:induction false} ScanLacks(s: string, q: nat, keepStray: bool, c: char)
    requires q <= |s| && Lacks(s[q..], c)
    ensures AllLack(ScanFrom(s, q, keepStray), c)
    decreases |s| - q
  {
    if q < |s| {
      var m := ScanStep(s, q, keepStray);
      var e := q + m.length;
      LacksTail(s, q, e, c);
      ScanLacks(s, e, keepStray, c);
      LacksAt(s, q, m, ScanFrom(s, e, keepStray), c);
    }
  }

  lemma LacksTail(s: string, q: nat, e: nat, c: char)
    requires q <= e <= |s| && Lacks(s[q..], c)
    ensures Lacks(s[e..], c)
  {
    assert s[q..] == s[q..|s|] && s[e..] == s[e..|s|];
    LacksWithin(s, q, |s|, e, |s|, c);
  }

  /** One step of the scan at `q` over text without `c`, followed by tokens without `c`. */
  lemma LacksAt(s: string, q: nat, m: Scan, rest: seq<Token>, c: char)
    requires q + m.length <= |s| && EndsWithToken(s[q..], m) && Lacks(s[q..], c) && AllLack(rest, c)
    ensures AllLack(Emitted(m) + rest, c)
  {
    assert s[q..] == s[q..|s|];
    EmittedLacks(s, q, m, |s|, c);
    AllLackAppend(Emitted(m), rest, c);
  }

  /**
   * A word holding no `<` and no `>` lands whole inside one token: the scan
   * of `s` from `p` is some tokens, then one token `x + w + y`, then more
   * tokens, where `x` and `y` are cut from the text on either side of the
   * word; text on either side without `c` leaves every other token, and `x`
   * and `y`, without `c`.
   */
  lemma {:induction false} ScanSplit(s: string, p: nat, keepStray: bool, i: nat, w: string, c: char)
      returns (before: seq<Token>, t: Token, after: seq<Token>, x: string, y: string)
    requires p <= i && i + |w| <= |s| && w != [] && s[i..i + |w|] == w
    requires forall j :: 0 <= j < |w| ==> w[j] != '<' && w[j] != '>'
    requires Lacks(s[p..i], c) && Lacks(s[i + |w|..], c)
    ensures ScanFrom(s, p, keepStray) == before + [t] + after
    ensures t.value == x + w + y
    ensures AllLack(before, c) && AllLack(after, c) && Lacks(x, c) && Lacks(y, c)
    decreases |s| - p
  {
    var u := s[p..];
    var m := Exec(u, keepStray);
    var e := p + m.length;
    ScanFromStep(s, p, keepStray);
    ExecToken(u, keepStray);
    ExecEdges(u, keepStray);
    if e <= i {
      LacksWithin(s, p, i, e, i, c);
      var before';
      before', t, after, x, y := ScanSplit(s, e, keepStray, i, w, c);
      EmittedLacks(s, p, m, i, c);
      AllLackAppend(Emitted(m), before', c);
      before := Emitted(m) + before';
      Regroup4(Emitted(m), before', [t], after);
    } else {
      t, x, y := WordToken(s, p, m, i, w, c);
      ScanLacks(s, e, keepStray, c);
      before := [];
      after := ScanFrom(s, e, keepStray);
      HeadOnly(m, t, after);
    }
  }

  lemma Regroup4<T>(a: seq<T>, b: seq<T>, c: seq<T>, d: seq<T>)
    ensures a + (b + c + d) == (a + b) + c + d
  {
  }

  lemma HeadOnly(m: Scan, t: Token, rest: seq<Token>)
    requires m.token == Some(t)
    ensures Emitted(m) + rest == [] + [t] + rest
  {
  }

  /** A step that ends by `hi` emits nothing holding a `c` absent from the text up to `hi`. */
  lemma EmittedLacks(s: string, p: nat, m: Scan, hi: nat, c: char)
    requires p + m.length <= hi <= |s| && EndsWithToken(s[p..], m) && Lacks(s[p..hi], c)
    ensures AllLack(Emitted(m), c)
  {
    if m.token.Some? {
      var v := m.token.value.value;
      TokenInText(s, p, m);
      LacksWithin(s, p, hi, p + m.length - |v|, p + m.length, c);
    }
  }

  /** The step whose match reaches past the start of the word holds all of it. */
  lemma WordToken(s: string, p: nat, m: Scan, i: nat, w: string, c: char) returns (t: Token, x: string, y: string)
    requires p <= i < p + m.length <= |s| && i + |w| <= |s| && w != [] && s[i..i + |w|] == w
    requires forall j :: 0 <= j < |w| ==> w[j] != '<' && w[j] != '>'
    requires Edges(s[p..], m) && EndsWithToken(s[p..], m)
    requires Lacks(s[p..i], c) && Lacks(s[i + |w|..], c)
    ensures m.token == Some(t) && t.value == x + w + y
    ensures Lacks(x, c) && Lacks(y, c) && Lacks(s[p + m.length..], c)
  {
    WordChars(s, i, w);
    StepCovers(s, p, m, i, |w|);
    var e := p + m.length;
    t := m.token.value;
    var v := t.value;
    TokenInText(s, p, m);
    x := s[e - |v|..i];
    y := s[i + |w|..e];
    SliceAroundWord(s, e - |v|, i, w, e);
    LacksWithin(s, p, i, e - |v|, i, c);
    LacksCut(s, i + |w|, e, c);
  }

  /** The characters of the word, read in `s`. */
  lemma WordChars(s: string, i: nat, w: string)
    requires i + |w| <= |s| && s[i..i + |w|] == w
    requires forall j :: 0 <= j < |w| ==> w[j] != '<' && w[j] != '>'
    ensures forall j :: i <= j < i + |w| ==> s[j] != '<' && s[j] != '>'
  {
    forall j | i <= j < i + |w|
      ensures s[j] != '<' && s[j] != '>'
    {
      assert s[j] == s[i..i + |w|][j - i];
    }
  }

  /** A step that reaches past `i`, where `k` characters other than `<` and `>`
      begin, has a token, which starts by `i` and ends after those characters. */
  lemma StepCovers(s: string, p: nat, m: Scan, i: nat, k: nat)
    requires p <= i < p + m.length <= |s| && i + k <= |s| && 0 < k
    requires forall j :: i <= j < i + k ==> s[j] != '<' && s[j] != '>'
    requires Edges(s[p..], m) && EndsWithToken(s[p..], m)
    ensures m.token.Some? && p + m.length - |m.token.value.value| <= i && i + k <= p + m.length
  {
    var u := s[p..];
    var e := p + m.length;
    assert u[i - p] == s[i];
    assert p + SkipLength(m) <= i;
    if m.token.value.TagToken? {
      assert s[e - 1] == u[m.length - 1];
    } else if e < |s| {
      assert s[e] == u[m.length];
    }
  }

  /** The token of a step, read in `s`. */
  lemma TokenInText(s: string, p: nat, m: Scan)
    requires p + m.length <= |s| && EndsWithToken(s[p..], m) && m.token.Some?
    ensures |m.token.value.value| <= m.length
    ensures m.token.value.value == s[p + m.length - |m.token.value.value|..p + m.length]
  {
    var v := m.token.value.value;
    assert s[p..][m.length - |v|..m.length] == s[p + m.length - |v|..p + m.length];
  }

  lemma SliceAroundWord(s: string, a: nat, i: nat, w: string, d: nat)
    requires a <= i && i + |w| <= d <= |s| && s[i..i + |w|] == w
    ensures s[a..d] == s[a..i] + w + s[i + |w|..d]
  {
    assert s[a..d] == s[a..i] + s[i..i + |w|] + s[i + |w|..d];
  }

  /** Text without `c` from `a` on lacks it up to `b` and from `b` on. */
  lemma LacksCut(s: string, a: nat, b: nat, c: char)
    requires a <= b <= |s| && Lacks(s[a..], c)
    ensures Lacks(s[a..b], c) && Lacks(s[b..], c)
  {
    forall j | 0 <= j < b - a
      ensures s[a..b][j] != c
    {
      assert s[a..b][j] == s[a..][j];
    }
    forall j | 0 <= j < |s| - b
      ensures s[b..][j] != c
    {
      assert s[b..][j] == s[a..][b - a + j];
    }
  }
}
