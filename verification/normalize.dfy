/**
 * `normalizeTwigTemplate` (src/lib/utils.ts, lines 9-28): a chain of global
 * regular-expression replaces that tidies the whitespace next to the Twig
 * delimiters `{% %}`, `{{ }}` and `{# #}`, then squeezes long whitespace runs
 * inside statement and expression spans.
 *
 * Each replace scans left to right and, at every position, takes the match
 * that starts there if there is one (then resumes after it) or keeps one
 * character and moves on, as a global `replace` does.
 */
module Normalizer {
  import opened Wrappers
  import opened Text
  import opened Minification

  // ------------------------------------------------------------ after an opener

  /** `replace(/{a}{b}\s+/g, "{a}{b} ")` for the opener `ab` (lines 13, 15, 17). */
  function SpaceAfter(s: string, a: char, b: char): (r: string)
    ensures |r| <= |s|
    decreases |s|
  {
    if s == [] then []
    else if |s| >= 3 && s[0] == a && s[1] == b && IsSpace(s[2]) then
      [a, b, ' '] + SpaceAfter(s[2 + SpaceRun(s[2..])..], a, b)
    else [s[0]] + SpaceAfter(s[1..], a, b)
  }

  /** No opener `ab` in `s` is directly followed by whitespace. */
  predicate OpenerTight(s: string, a: char, b: char) {
    forall i :: 0 <= i < |s| - 2 ==> !(s[i] == a && s[i + 1] == b && IsSpace(s[i + 2]))
  }

  /** A whitespace run right after the opener becomes exactly one space. */
  lemma OpenerRun(a: char, b: char, w: string, t: string)
    requires w != [] && AllSpace(w) && (t == [] || !IsSpace(t[0]))
    ensures SpaceAfter([a, b] + w + t, a, b) == [a, b, ' '] + SpaceAfter(t, a, b)
  {
    var s := [a, b] + w + t;
    assert s[2..] == w + t;
    SpaceRunAppend(w, t);
    assert s[2 + |w|..] == t;
  }

  /** Where no opener touches whitespace, nothing changes: no space is inserted. */
  lemma {:induction false} SpaceAfterUntouched(s: string, a: char, b: char)
    requires OpenerTight(s, a, b)
    ensures SpaceAfter(s, a, b) == s
    decreases |s|
  {
    if s != [] {
      assert OpenerTight(s[1..], a, b) by {
        forall i | 0 <= i < |s[1..]| - 2
          ensures !(s[1..][i] == a && s[1..][i + 1] == b && IsSpace(s[1..][i + 2]))
        {
          assert s[1..][i] == s[i + 1] && s[1..][i + 1] == s[i + 2] && s[1..][i + 2] == s[i + 3];
        }
      }
      SpaceAfterUntouched(s[1..], a, b);
      assert s == [s[0]] + s[1..];
    }
  }

  /** Only whitespace changes. */
  lemma {:induction false} SpaceAfterNonSpace(s: string, a: char, b: char)
    ensures NonSpace(SpaceAfter(s, a, b)) == NonSpace(s)
    decreases |s|, 1
  {
    if s != [] {
      if |s| >= 3 && s[0] == a && s[1] == b && IsSpace(s[2]) {
        SpaceAfterRun(s, a, b);
      } else {
        SpaceAfterKeep(s, a, b);
      }
    }
  }

  lemma {:induction false} SpaceAfterRun(s: string, a: char, b: char)
    requires |s| >= 3 && s[0] == a && s[1] == b && IsSpace(s[2])
    ensures NonSpace(SpaceAfter(s, a, b)) == NonSpace(s)
    decreases |s|, 0
  {
    var k := 2 + SpaceRun(s[2..]);
    var w, t := s[2..k], s[k..];
    SpaceAfterNonSpace(t, a, b);
    assert AllSpace(w) by {
      assert w == s[2..][..SpaceRun(s[2..])];
    }
    NonSpaceRunToSpace([a, b], w, t, SpaceAfter(t, a, b));
    assert s == [a, b] + w + t;
    assert SpaceAfter(s, a, b) == [a, b] + [' '] + SpaceAfter(t, a, b);
    NonSpaceSame(SpaceAfter(s, a, b), s, [a, b] + [' '] + SpaceAfter(t, a, b), [a, b] + w + t);
  }

  lemma {:induction false} SpaceAfterKeep(s: string, a: char, b: char)
    requires s != [] && !(|s| >= 3 && s[0] == a && s[1] == b && IsSpace(s[2]))
    ensures NonSpace(SpaceAfter(s, a, b)) == NonSpace(s)
    decreases |s|, 0
  {
    SpaceAfterNonSpace(s[1..], a, b);
    NonSpaceKeepHead(s[0], SpaceAfter(s[1..], a, b), s[1..]);
    assert s == [s[0]] + s[1..];
  }

  // ------------------------------------------------------------ before a closer

  /** The closer `cd` sits at index `n` of `s`. */
  predicate CloserAt(s: string, n: nat, c: char, d: char) {
    n + 2 <= |s| && s[n] == c && s[n + 1] == d
  }

  /**
   * `replace(/\s+{c}{d}/g, " {c}{d}")` for the closer `cd` (lines 14, 16, 18).
   * The greedy run can only be followed by the closer where the run ends, so a
   * match starts at a whitespace character exactly when its run is followed by
   * the closer.
   */
  function SpaceBefore(s: string, c: char, d: char): (r: string)
    ensures |r| <= |s|
    decreases |s|
  {
    if s == [] then []
    else if IsSpace(s[0]) && CloserAt(s, SpaceRun(s), c, d) then
      [' ', c, d] + SpaceBefore(s[SpaceRun(s) + 2..], c, d)
    else [s[0]] + SpaceBefore(s[1..], c, d)
  }

  /** No closer `cd` in `s` is directly preceded by whitespace. */
  predicate CloserTight(s: string, c: char, d: char) {
    forall i :: 0 < i < |s| - 1 ==> !(s[i] == c && s[i + 1] == d && IsSpace(s[i - 1]))
  }

  /** A whitespace run right before the closer becomes exactly one space. */
  lemma CloserRun(c: char, d: char, w: string, t: string)
    requires !IsSpace(c) && w != [] && AllSpace(w)
    ensures SpaceBefore(w + [c, d] + t, c, d) == [' ', c, d] + SpaceBefore(t, c, d)
  {
    var s := w + [c, d] + t;
    assert s == w + ([c, d] + t);
    SpaceRunAppend(w, [c, d] + t);
    assert s[|w|..] == [c, d] + t;
    assert s[|w| + 2..] == t;
  }

  lemma CloserTightTail(s: string, c: char, d: char)
    requires s != [] && CloserTight(s, c, d)
    ensures CloserTight(s[1..], c, d)
  {
    forall i | 0 < i < |s[1..]| - 1
      ensures !(s[1..][i] == c && s[1..][i + 1] == d && IsSpace(s[1..][i - 1]))
    {
      assert s[1..][i] == s[i + 1] && s[1..][i + 1] == s[i + 2] && s[1..][i - 1] == s[i];
    }
  }

  lemma CloserTightHead(s: string, c: char, d: char)
    requires s != [] && CloserTight(s, c, d) && IsSpace(s[0])
    ensures !CloserAt(s, SpaceRun(s), c, d)
  {
    var n := SpaceRun(s);
    assert IsSpace(s[n - 1]) by { assert s[..n][n - 1] == s[n - 1]; }
    if n + 2 <= |s| {
      assert !(s[n] == c && s[n + 1] == d);
    }
  }

  /** Where no closer touches whitespace, nothing changes: no space is inserted. */
  lemma {:induction false} SpaceBeforeUntouched(s: string, c: char, d: char)
    requires CloserTight(s, c, d)
    ensures SpaceBefore(s, c, d) == s
    decreases |s|
  {
    if s != [] {
      if IsSpace(s[0]) {
        CloserTightHead(s, c, d);
      }
      CloserTightTail(s, c, d);
      SpaceBeforeUntouched(s[1..], c, d);
      assert s == [s[0]] + s[1..];
    }
  }

  /** Only whitespace changes. */
  lemma {:induction false} SpaceBeforeNonSpace(s: string, c: char, d: char)
    ensures NonSpace(SpaceBefore(s, c, d)) == NonSpace(s)
    decreases |s|, 1
  {
    if s != [] {
      if IsSpace(s[0]) && CloserAt(s, SpaceRun(s), c, d) {
        SpaceBeforeRun(s, c, d);
      } else {
        SpaceBeforeKeep(s, c, d);
      }
    }
  }

  lemma {:induction false} SpaceBeforeRun(s: string, c: char, d: char)
    requires s != [] && IsSpace(s[0]) && CloserAt(s, SpaceRun(s), c, d)
    ensures NonSpace(SpaceBefore(s, c, d)) == NonSpace(s)
    decreases |s|, 0
  {
    var n := SpaceRun(s);
    var t := s[n + 2..];
    var r := SpaceBefore(t, c, d);
    SpaceBeforeNonSpace(t, c, d);
    SpaceBeforeHead(s, c, d);
    SplitAtCloser(s, n, c, d);
    RunBeforeCloser(s[..n], c, d, t, r);
    NonSpaceSame(SpaceBefore(s, c, d), s, [' ', c, d] + r, s[..n] + ([c, d] + t));
  }

  /** The replace at a whitespace run followed by the closer. */
  lemma SpaceBeforeHead(s: string, c: char, d: char)
    requires s != [] && IsSpace(s[0]) && CloserAt(s, SpaceRun(s), c, d)
    ensures SpaceBefore(s, c, d) == [' ', c, d] + SpaceBefore(s[SpaceRun(s) + 2..], c, d)
  {
  }

  lemma SplitAtCloser(s: string, n: nat, c: char, d: char)
    requires CloserAt(s, n, c, d)
    ensures s == s[..n] + ([c, d] + s[n + 2..])
  {
    assert s[n..] == [c, d] + s[n + 2..];
  }

  lemma RunBeforeCloser(w: string, c: char, d: char, t: string, r: string)
    requires AllSpace(w) && NonSpace(r) == NonSpace(t)
    ensures NonSpace([' ', c, d] + r) == NonSpace(w + ([c, d] + t))
  {
    NonSpaceAppend([' ', c, d], r);
    NonSpaceAppend(w, [c, d] + t);
    NonSpaceAppend([c, d], t);
    NonSpaceOfSpaces(w);
    assert [' ', c, d][1..] == [c, d];
  }

  lemma {:induction false} SpaceBeforeKeep(s: string, c: char, d: char)
    requires s != [] && !(IsSpace(s[0]) && CloserAt(s, SpaceRun(s), c, d))
    ensures NonSpace(SpaceBefore(s, c, d)) == NonSpace(s)
    decreases |s|, 0
  {
    SpaceBeforeNonSpace(s[1..], c, d);
    NonSpaceKeepHead(s[0], SpaceBefore(s[1..], c, d), s[1..]);
    assert s == [s[0]] + s[1..];
  }

  // ------------------------------------------------------------ long runs inside a span

  /** Index of the first `x` in `u`. */
  function FirstIndex(u: string, x: char): (r: Option<nat>)
    ensures r.Some? ==> r.value < |u| && u[r.value] == x
    decreases |u|
  {
    if u == [] then None
    else if u[0] == x then Some(0)
    else match FirstIndex(u[1..], x)
      case Some(k) => Some(k + 1)
      case None => None
  }

  /** `u` holds a run of ten or more whitespace characters: `\s{10,}`. */
  predicate HasLongRun(u: string)
    decreases |u|
  {
    u != [] && (SpaceRun(u) >= 10 || HasLongRun(u[1..]))
  }

  /**
   * The length of the match of `(\{o1[^x]*?)\s{10,}([^x]*?x d)` at the head of
   * `s`, if any: the opener, then text without `x` holding a long run, then
   * the closer. The closer's `x` is the first `x` after the opener.
   */
  function SpanAt(s: string, o1: char, x: char, d: char): (r: Option<nat>)
    ensures r.Some? ==> 4 <= r.value <= |s|
  {
    if |s| >= 2 && s[0] == '{' && s[1] == o1 then
      match FirstIndex(s[2..], x)
      case Some(k) =>
        if k + 3 < |s| && s[k + 3] == d && HasLongRun(s[2..k + 2]) then Some(k + 4) else None
      case None => None
    else None
  }

  /**
   * The replace with a callback (lines 20-23 for `{% %}`, 24-27 for `{{ }}`):
   * in each matching span, `replace(/\s{2,}/g, " ")`.
   */
  function CleanSpans(s: string, o1: char, x: char, d: char): string
    decreases |s|
  {
    if s == [] then []
    else match SpanAt(s, o1, x, d)
      case Some(n) => Collapse(s[..n]) + CleanSpans(s[n..], o1, x, d)
      case None => [s[0]] + CleanSpans(s[1..], o1, x, d)
  }

  lemma {:induction false} FirstIndexAfter(mid: string, x: char, rest: string)
    requires Lacks(mid, x)
    ensures FirstIndex(mid + [x] + rest, x) == Some(|mid|)
    decreases |mid|
  {
    if mid == [] {
      assert mid + [x] + rest == [x] + rest;
    } else {
      assert (mid + [x] + rest)[1..] == mid[1..] + [x] + rest;
      FirstIndexAfter(mid[1..], x, rest);
    }
  }

  /**
   * A span with no inner `x` and a run of ten or more whitespace characters is
   * squeezed: every run of two or more whitespace characters in it becomes one
   * space, and the scan resumes after its closer.
   */
  lemma SpanSqueezed(o1: char, x: char, d: char, mid: string, t: string)
    requires Lacks(mid, x) && HasLongRun(mid)
    ensures CleanSpans(['{', o1] + mid + [x, d] + t, o1, x, d)
         == Collapse(['{', o1] + mid + [x, d]) + CleanSpans(t, o1, x, d)
    ensures NoDoubleSpace(Collapse(['{', o1] + mid + [x, d]))
  {
    var span := ['{', o1] + mid + [x, d];
    var s := span + t;
    assert s[2..] == mid + [x] + ([d] + t);
    FirstIndexAfter(mid, x, [d] + t);
    assert s[2..|mid| + 2] == mid;
    assert SpanAt(s, o1, x, d) == Some(|span|);
    assert s[..|span|] == span && s[|span|..] == t;
    CollapseSingles(span);
  }

  lemma {:induction false} CollapseNonSpace(s: string)
    ensures NonSpace(Collapse(s)) == NonSpace(s)
    ensures |Collapse(s)| <= |s|
    decreases |s|
  {
    if s != [] {
      var k := SpaceRun(s);
      if k >= 2 {
        CollapseNonSpace(s[k..]);
        NonSpaceOfSpaces(s[..k]);
        assert s == s[..k] + s[k..];
        NonSpaceAppend(s[..k], s[k..]);
        NonSpaceAppend(" ", Collapse(s[k..]));
      } else {
        CollapseNonSpace(s[1..]);
        NonSpaceAppend([s[0]], Collapse(s[1..]));
        NonSpaceAppend([s[0]], s[1..]);
        assert s == [s[0]] + s[1..];
      }
    }
  }

  /** Squeezing spans changes only whitespace and never lengthens the text. */
  lemma {:induction false} CleanSpansNonSpace(s: string, o1: char, x: char, d: char)
    ensures NonSpace(CleanSpans(s, o1, x, d)) == NonSpace(s)
    ensures |CleanSpans(s, o1, x, d)| <= |s|
    decreases |s|
  {
    if s != [] {
      match SpanAt(s, o1, x, d)
      case Some(n) =>
        CleanSpansNonSpace(s[n..], o1, x, d);
        CollapseNonSpace(s[..n]);
        assert s == s[..n] + s[n..];
        NonSpaceAppend(s[..n], s[n..]);
        NonSpaceAppend(Collapse(s[..n]), CleanSpans(s[n..], o1, x, d));
      case None =>
        CleanSpansNonSpace(s[1..], o1, x, d);
        NonSpaceAppend([s[0]], CleanSpans(s[1..], o1, x, d));
        NonSpaceAppend([s[0]], s[1..]);
        assert s == [s[0]] + s[1..];
    }
  }

  // ------------------------------------------------------------ the chain

  /** The six delimiter replaces, in the order of lines 13-18. */
  function Delimiters(template: string): string {
    var s1 := SpaceAfter(template, '{', '%');
    var s2 := SpaceBefore(s1, '%', '}');
    var s3 := SpaceAfter(s2, '{', '{');
    var s4 := SpaceBefore(s3, '}', '}');
    var s5 := SpaceAfter(s4, '{', '#');
    SpaceBefore(s5, '#', '}')
  }

  /** `normalizeTwigTemplate(template)` */
  function Normalize(template: string): string {
    CleanSpans(CleanSpans(Delimiters(template), '%', '%', '}'), '{', '}', '}')
  }

  lemma DelimitersNonSpace(template: string)
    ensures NonSpace(Delimiters(template)) == NonSpace(template)
    ensures |Delimiters(template)| <= |template|
  {
    var s1 := SpaceAfter(template, '{', '%');
    var s2 := SpaceBefore(s1, '%', '}');
    var s3 := SpaceAfter(s2, '{', '{');
    var s4 := SpaceBefore(s3, '}', '}');
    var s5 := SpaceAfter(s4, '{', '#');
    SpaceAfterNonSpace(template, '{', '%');
    SpaceBeforeNonSpace(s1, '%', '}');
    SpaceAfterNonSpace(s2, '{', '{');
    SpaceBeforeNonSpace(s3, '}', '}');
    SpaceAfterNonSpace(s4, '{', '#');
    SpaceBeforeNonSpace(s5, '#', '}');
  }

  /**
   * Only whitespace is ever changed: with all whitespace deleted, the output
   * and the input are the same string; and the output is never longer.
   */
  lemma NormalizeNonSpace(template: string)
    ensures NonSpace(Normalize(template)) == NonSpace(template)
    ensures |Normalize(template)| <= |template|
  {
    var s6 := Delimiters(template);
    DelimitersNonSpace(template);
    CleanSpansNonSpace(s6, '%', '%', '}');
    CleanSpansNonSpace(CleanSpans(s6, '%', '%', '}'), '{', '}', '}');
  }

  /** A template whose delimiters touch no whitespace comes through the first six replaces unchanged. */
  lemma DelimitersUntouched(template: string)
    requires OpenerTight(template, '{', '%') && OpenerTight(template, '{', '{') && OpenerTight(template, '{', '#')
    requires CloserTight(template, '%', '}') && CloserTight(template, '}', '}') && CloserTight(template, '#', '}')
    ensures Delimiters(template) == template
  {
    SpaceAfterUntouched(template, '{', '%');
    SpaceBeforeUntouched(template, '%', '}');
    SpaceAfterUntouched(template, '{', '{');
    SpaceBeforeUntouched(template, '}', '}');
    SpaceAfterUntouched(template, '{', '#');
    SpaceBeforeUntouched(template, '#', '}');
  }
}
