/**
 * The minification chain `serialize` runs over the shielded text
 * (src/utils/SerializeUtils.ts:95-102): line breaks and tabs removed, the
 * whitespace between a `>` and a `<` removed, runs of two or more whitespace
 * characters collapsed to one space, and the result trimmed.
 */
module Minification {
  import opened Text

  predicate IsBreak(c: char) { c == '\r' || c == '\n' || c == '\t' }

  predicate NoBreak(s: string) { forall i :: 0 <= i < |s| ==> !IsBreak(s[i]) }

  /** `c` does not occur in `s`. */
  predicate Lacks(s: string, c: char) { forall i :: 0 <= i < |s| ==> s[i] != c }

  /** `replace(/\r?\n|\r|\t/g, "")` */
  function StripBreaks(s: string): string
    decreases |s|
  {
    if s == [] then []
    else if |s| >= 2 && s[0] == '\r' && s[1] == '\n' then StripBreaks(s[2..])
    else if IsBreak(s[0]) then StripBreaks(s[1..])
    else [s[0]] + StripBreaks(s[1..])
  }

  /** The reference: every character that is not a break, in order. */
  function WithoutBreaks(s: string): string
    decreases |s|
  {
    if s == [] then [] else (if IsBreak(s[0]) then [] else [s[0]]) + WithoutBreaks(s[1..])
  }

  /** The alternation removes exactly the break characters, each `\r\n` as one match. */
  lemma {:induction false} StripBreaksFilters(s: string)
    ensures StripBreaks(s) == WithoutBreaks(s)
    ensures NoBreak(StripBreaks(s))
    decreases |s|
  {
    if s == [] {
    } else if |s| >= 2 && s[0] == '\r' && s[1] == '\n' {
      StripBreaksFilters(s[2..]);
      assert s[1..][1..] == s[2..];
    } else if IsBreak(s[0]) {
      StripBreaksFilters(s[1..]);
    } else {
      StripBreaksFilters(s[1..]);
      NoBreakCons(s[0], StripBreaks(s[1..]));
    }
  }

  lemma NoBreakCons(c: char, t: string)
    requires !IsBreak(c) && NoBreak(t)
    ensures NoBreak([c] + t)
  {
    assert forall i :: 1 <= i < |t| + 1 ==> ([c] + t)[i] == t[i - 1];
  }

  lemma LacksAppend(a: string, b: string, x: char)
    requires Lacks(a, x) && Lacks(b, x)
    ensures Lacks(a + b, x)
  {
    assert forall i :: |a| <= i < |a| + |b| ==> (a + b)[i] == b[i - |a|];
  }

  lemma LacksCons(c: char, t: string, x: char)
    requires c != x && Lacks(t, x)
    ensures Lacks([c] + t, x)
  {
    assert forall i :: 1 <= i < |t| + 1 ==> ([c] + t)[i] == t[i - 1];
  }

  lemma {:induction false} StripBreaksLacks(s: string, x: char)
    requires Lacks(s, x)
    ensures Lacks(StripBreaks(s), x)
    decreases |s|
  {
    if s == [] {
    } else if |s| >= 2 && s[0] == '\r' && s[1] == '\n' {
      StripBreaksLacks(s[2..], x);
    } else if IsBreak(s[0]) {
      StripBreaksLacks(s[1..], x);
    } else {
      StripBreaksLacks(s[1..], x);
      LacksCons(s[0], StripBreaks(s[1..]), x);
    }
  }

  // ------------------------------------------------------------ whitespace runs

  /** Length of the leading whitespace run (a greedy `\s*`). */
  function SpaceRun(s: string): (n: nat)
    ensures n <= |s| && AllSpace(s[..n])
    ensures n < |s| ==> !IsSpace(s[n])
    decreases |s|
  {
    if s != [] && IsSpace(s[0]) then
      var r := SpaceRun(s[1..]);
      assert s[..1 + r] == [s[0]] + s[1..][..r];
      1 + r
    else 0
  }

  lemma {:induction false} SpaceRunAppend(w: string, t: string)
    requires AllSpace(w) && (t == [] || !IsSpace(t[0]))
    ensures SpaceRun(w + t) == |w|
    decreases |w|
  {
    if w == [] {
      assert w + t == t;
    } else {
      assert (w + t)[1..] == w[1..] + t;
      SpaceRunAppend(w[1..], t);
    }
  }

  /** A `>`, a non-empty whitespace run, then a `<`: what `/>\s+</` matches at the head. */
  predicate GapHere(s: string) {
    |s| >= 2 && s[0] == '>' && 0 < SpaceRun(s[1..]) && 1 + SpaceRun(s[1..]) < |s|
    && s[1 + SpaceRun(s[1..])] == '<'
  }

  /** No whitespace is left between a `>` and the next `<`. */
  predicate NoTagGap(s: string) { forall i :: 0 <= i < |s| ==> !GapHere(s[i..]) }

  lemma NoTagGapCons(c: char, t: string)
    ensures NoTagGap([c] + t) <==> !GapHere([c] + t) && NoTagGap(t)
  {
    var s := [c] + t;
    assert s[0..] == s;
    assert forall i :: 0 <= i < |t| ==> s[i + 1..] == t[i..];
    if !GapHere(s) && NoTagGap(t) {
      forall i | 0 <= i < |s| ensures !GapHere(s[i..]) {
        if i > 0 { assert s[i..] == t[i - 1..]; }
      }
    }
  }

  /** `replace(/>\s+</g, "><")`: `\s+` can only end right before the `<`, so the
      match is the whole leading run. */
  function CloseTagGaps(s: string): string
    decreases |s|
  {
    if GapHere(s) then "><" + CloseTagGaps(s[SpaceRun(s[1..]) + 2..])
    else if s == [] then []
    else [s[0]] + CloseTagGaps(s[1..])
  }

  lemma CloseTagGapsHead(s: string)
    requires s != []
    ensures CloseTagGaps(s) != [] && CloseTagGaps(s)[0] == s[0]
  {
  }

  /** Whitespace is never part of a match's start, so a leading run is copied. */
  lemma {:induction false} CloseTagGapsSpaces(w: string, t: string)
    requires AllSpace(w)
    ensures CloseTagGaps(w + t) == w + CloseTagGaps(t)
    decreases |w|
  {
    if w == [] {
      assert w + t == t;
    } else {
      assert (w + t)[1..] == w[1..] + t;
      CloseTagGapsSpaces(w[1..], t);
    }
  }

  /** After the step no `>` is followed by whitespace and a `<`. */
  lemma {:induction false} CloseTagGapsCloses(s: string)
    ensures NoTagGap(CloseTagGaps(s))
    decreases |s|
  {
    if GapHere(s) {
      var rest := s[SpaceRun(s[1..]) + 2..];
      CloseTagGapsCloses(rest);
      var r := CloseTagGaps(rest);
      NoTagGapCons('<', r);
      assert SpaceRun(['<'] + r) == 0;
      NoTagGapCons('>', ['<'] + r);
      assert "><" + r == ['>'] + (['<'] + r);
    } else if s != [] {
      CloseTagGapsCloses(s[1..]);
      var r := CloseTagGaps(s[1..]);
      NoTagGapCons(s[0], r);
      if s[0] == '>' {
        LoneCloser(s);
      }
    }
  }

  /** A `>` that starts no match stays one in the output. */
  lemma LoneCloser(s: string)
    requires s != [] && s[0] == '>' && !GapHere(s)
    ensures !GapHere([s[0]] + CloseTagGaps(s[1..]))
  {
    var t := s[1..];
    var k := SpaceRun(t);
    assert t == t[..k] + t[k..];
    CloseTagGapsSpaces(t[..k], t[k..]);
    var r := CloseTagGaps(t);
    assert r == t[..k] + CloseTagGaps(t[k..]);
    if k < |t| {
      CloseTagGapsHead(t[k..]);
      SpaceRunAppend(t[..k], CloseTagGaps(t[k..]));
      assert r[k] == t[k];
    } else {
      assert t[k..] == [];
      SpaceRunAppend(t[..k], []);
    }
    assert ([s[0]] + r)[1..] == r;
  }

  lemma {:induction false} CloseTagGapsNoBreak(s: string)
    requires NoBreak(s)
    ensures NoBreak(CloseTagGaps(s))
    decreases |s|
  {
    if GapHere(s) {
      var rest := s[SpaceRun(s[1..]) + 2..];
      CloseTagGapsNoBreak(rest);
      NoBreakCons('<', CloseTagGaps(rest));
      NoBreakCons('>', ['<'] + CloseTagGaps(rest));
      assert "><" + CloseTagGaps(rest) == ['>'] + (['<'] + CloseTagGaps(rest));
    } else if s != [] {
      CloseTagGapsNoBreak(s[1..]);
      NoBreakCons(s[0], CloseTagGaps(s[1..]));
    }
  }

  lemma {:induction false} CloseTagGapsLacks(s: string, x: char)
    requires Lacks(s, x) && x != '>' && x != '<'
    ensures Lacks(CloseTagGaps(s), x)
    decreases |s|
  {
    if GapHere(s) {
      var rest := s[SpaceRun(s[1..]) + 2..];
      CloseTagGapsLacks(rest, x);
      LacksCons('<', CloseTagGaps(rest), x);
      LacksCons('>', ['<'] + CloseTagGaps(rest), x);
      assert "><" + CloseTagGaps(rest) == ['>'] + (['<'] + CloseTagGaps(rest));
    } else if s != [] {
      CloseTagGapsLacks(s[1..], x);
      LacksCons(s[0], CloseTagGaps(s[1..]), x);
    }
  }

  // ------------------------------------------------------------ collapsing

  /** No two whitespace characters are adjacent. */
  predicate NoDoubleSpace(s: string) {
    forall i :: 0 <= i < |s| - 1 ==> !(IsSpace(s[i]) && IsSpace(s[i + 1]))
  }

  /** `replace(/\s{2,}/g, " ")`: a greedy run of two or more becomes one space. */
  function Collapse(s: string): string
    decreases |s|
  {
    if s == [] then []
    else if SpaceRun(s) >= 2 then " " + Collapse(s[SpaceRun(s)..])
    else [s[0]] + Collapse(s[1..])
  }

  lemma CollapseHead(s: string)
    requires s != []
    ensures Collapse(s) != []
    ensures !IsSpace(s[0]) ==> Collapse(s)[0] == s[0]
  {
  }

  lemma NoDoubleSpaceCons(c: char, t: string)
    requires NoDoubleSpace(t) && (t == [] || !IsSpace(c) || !IsSpace(t[0]))
    ensures NoDoubleSpace([c] + t)
  {
    assert forall i :: 1 <= i < |t| + 1 ==> ([c] + t)[i] == t[i - 1];
  }

  /** After collapsing, whitespace characters stand alone. */
  lemma {:induction false} CollapseSingles(s: string)
    ensures NoDoubleSpace(Collapse(s))
    decreases |s|
  {
    if s != [] {
      var k := SpaceRun(s);
      if k >= 2 {
        CollapseSingles(s[k..]);
        if k < |s| { CollapseHead(s[k..]); }
        NoDoubleSpaceCons(' ', Collapse(s[k..]));
      } else {
        CollapseSingles(s[1..]);
        if |s| > 1 { CollapseHead(s[1..]); }
        NoDoubleSpaceCons(s[0], Collapse(s[1..]));
      }
    }
  }

  /** Collapsing keeps whether a text starts with whitespace and what follows that run. */
  lemma CollapseRunHead(t: string)
    ensures SpaceRun(t) > 0 <==> SpaceRun(Collapse(t)) > 0
    ensures SpaceRun(t) < |t| <==> SpaceRun(Collapse(t)) < |Collapse(t)|
    ensures SpaceRun(t) < |t| ==> Collapse(t)[SpaceRun(Collapse(t))] == t[SpaceRun(t)]
  {
    if t != [] {
      var k := SpaceRun(t);
      var j := if k >= 2 then k else 1;
      var rest := Collapse(t[j..]);
      if j < |t| { CollapseHead(t[j..]); }
      if k >= 1 {
        SpaceRunAppend([t[0]], rest);
        assert Collapse(t) == [(if k >= 2 then ' ' else t[0])] + rest;
      } else {
        CollapseHead(t);
      }
    }
  }

  lemma NoTagGapSuffix(s: string, j: nat)
    requires NoTagGap(s) && j <= |s|
    ensures NoTagGap(s[j..])
  {
    forall i | 0 <= i < |s| - j ensures !GapHere(s[j..][i..]) {
      assert s[j..][i..] == s[j + i..];
    }
  }

  /** Collapsing opens no new gap between a `>` and a `<`. */
  lemma {:induction false} CollapseNoGap(s: string)
    requires NoTagGap(s)
    ensures NoTagGap(Collapse(s))
    decreases |s|
  {
    if s != [] {
      var k := SpaceRun(s);
      if k >= 2 {
        NoTagGapSuffix(s, k);
        CollapseNoGap(s[k..]);
        NoTagGapCons(' ', Collapse(s[k..]));
      } else {
        NoTagGapCons(s[0], s[1..]);
        CollapseNoGap(s[1..]);
        var r := Collapse(s[1..]);
        NoTagGapCons(s[0], r);
        if s[0] == '>' {
          CollapseRunHead(s[1..]);
          assert ([s[0]] + r)[1..] == r;
        }
      }
    }
  }

  lemma {:induction false} CollapseNoBreak(s: string)
    requires NoBreak(s)
    ensures NoBreak(Collapse(s))
    decreases |s|
  {
    if s != [] {
      var k := SpaceRun(s);
      if k >= 2 {
        CollapseNoBreak(s[k..]);
        NoBreakCons(' ', Collapse(s[k..]));
      } else {
        CollapseNoBreak(s[1..]);
        NoBreakCons(s[0], Collapse(s[1..]));
      }
    }
  }

  lemma {:induction false} CollapseLacks(s: string, x: char)
    requires Lacks(s, x) && x != ' '
    ensures Lacks(Collapse(s), x)
    decreases |s|
  {
    if s != [] {
      var k := SpaceRun(s);
      if k >= 2 {
        CollapseLacks(s[k..], x);
        LacksCons(' ', Collapse(s[k..]), x);
      } else {
        CollapseLacks(s[1..], x);
        LacksCons(s[0], Collapse(s[1..]), x);
      }
    }
  }

  // ------------------------------------------------------------ trimming and the chain

  lemma {:induction false} SpaceRunPrefix(a: string, b: string)
    requires SpaceRun(a) < |a|
    ensures SpaceRun(a + b) == SpaceRun(a)
    decreases |a|
  {
    assert (a + b)[0] == a[0];
    if IsSpace(a[0]) {
      assert (a + b)[1..] == a[1..] + b;
      SpaceRunPrefix(a[1..], b);
    }
  }

  /** A gap inside a prefix is a gap of the whole text. */
  lemma GapPrefix(x: string, m: nat)
    requires m <= |x| && GapHere(x[..m])
    ensures GapHere(x)
  {
    var y := x[..m];
    var k := SpaceRun(y[1..]);
    assert y[1..] == x[1..][..m - 1];
    assert x[1..] == y[1..] + x[1..][m - 1..];
    SpaceRunPrefix(y[1..], x[1..][m - 1..]);
  }

  lemma NoTagGapPrefix(s: string, j: nat)
    requires NoTagGap(s) && j <= |s|
    ensures NoTagGap(s[..j])
  {
    forall i | 0 <= i < j ensures !GapHere(s[..j][i..]) {
      assert s[..j][i..] == s[i..][..j - i];
      if GapHere(s[i..][..j - i]) { GapPrefix(s[i..], j - i); }
    }
  }

  /** The whole `minifiedHtml` expression. */
  function Minify(s: string): string {
    Trim(Collapse(CloseTagGaps(StripBreaks(s))))
  }

  /** `Trim(s)` is a slice of `s`. */
  lemma TrimSlice(s: string) returns (a: nat, b: nat)
    ensures a <= b <= |s| && Trim(s) == s[a..b]
    ensures AllSpace(s[..a]) && AllSpace(s[b..])
  {
    var n;
    a, n := TrimParts(s);
    b := a + n;
    SliceOfSuffix(s, a, n);
  }

  /** The two cuts of `Trim`: the leading whitespace, then the trailing whitespace of the rest. */
  lemma TrimParts(s: string) returns (a: nat, n: nat)
    ensures a + n <= |s| && Trim(s) == s[a..][..n]
    ensures AllSpace(s[..a]) && AllSpace(s[a..][n..])
  {
    var t := TrimStart(s);
    a := |s| - |t|;
    var e := TrimEnd(t);
    n := |e|;
  }

  lemma SliceOfSuffix(s: string, a: nat, n: nat)
    requires a + n <= |s|
    ensures s[a..][..n] == s[a..a + n] && s[a..][n..] == s[a + n..]
  {
  }

  lemma NoBreakSlice(s: string, a: nat, b: nat)
    requires NoBreak(s) && a <= b <= |s|
    ensures NoBreak(s[a..b])
  {
    assert forall i :: 0 <= i < b - a ==> s[a..b][i] == s[a + i];
  }

  lemma LacksSlice(s: string, x: char, a: nat, b: nat)
    requires Lacks(s, x) && a <= b <= |s|
    ensures Lacks(s[a..b], x)
  {
    assert forall i :: 0 <= i < b - a ==> s[a..b][i] == s[a + i];
  }

  lemma NoDoubleSpaceSlice(s: string, a: nat, b: nat)
    requires NoDoubleSpace(s) && a <= b <= |s|
    ensures NoDoubleSpace(s[a..b])
  {
    assert forall i :: 0 <= i < b - a ==> s[a..b][i] == s[a + i];
  }

  lemma NoTagGapSlice(s: string, a: nat, b: nat)
    requires NoTagGap(s) && a <= b <= |s|
    ensures NoTagGap(s[a..b])
  {
    NoTagGapSuffix(s, a);
    NoTagGapPrefix(s[a..], b - a);
    assert s[a..][..b - a] == s[a..b];
  }

  /** What the minified text looks like: no line break or tab, no whitespace
      between a `>` and a `<`, no two adjacent whitespace characters, and no
      whitespace at either end. */
  lemma MinifyShape(s: string)
    ensures NoBreak(Minify(s)) && NoTagGap(Minify(s)) && NoDoubleSpace(Minify(s))
    ensures Minify(s) == [] || (!IsSpace(Minify(s)[0]) && !IsSpace(Minify(s)[|Minify(s)| - 1]))
  {
    var a := StripBreaks(s);
    StripBreaksFilters(s);
    var b := CloseTagGaps(a);
    CloseTagGapsCloses(a);
    CloseTagGapsNoBreak(a);
    var c := Collapse(b);
    CollapseNoGap(b);
    CollapseNoBreak(b);
    CollapseSingles(b);
    var i, j := TrimSlice(c);
    NoBreakSlice(c, i, j);
    NoTagGapSlice(c, i, j);
    NoDoubleSpaceSlice(c, i, j);
  }

  /** Minifying adds no character other than a space, `>` or `<`. */
  lemma MinifyLacks(s: string, x: char)
    requires Lacks(s, x) && x != ' ' && x != '>' && x != '<'
    ensures Lacks(Minify(s), x)
  {
    StripBreaksLacks(s, x);
    CloseTagGapsLacks(StripBreaks(s), x);
    var c := Collapse(CloseTagGaps(StripBreaks(s)));
    CollapseLacks(CloseTagGaps(StripBreaks(s)), x);
    var i, j := TrimSlice(c);
    LacksSlice(c, x, i, j);
  }

  // ------------------------------------------------------------ text without whitespace

  lemma NoSpaceTail(s: string)
    requires s != [] && NoSpace(s)
    ensures !IsSpace(s[0]) && NoSpace(s[1..])
  {
    assert forall i :: 0 <= i < |s| - 1 ==> s[1..][i] == s[i + 1];
  }

  lemma {:induction false} StripBreaksNoSpace(s: string)
    requires NoSpace(s)
    ensures StripBreaks(s) == s
    decreases |s|
  {
    if s != [] {
      NoSpaceTail(s);
      StripBreaksNoSpace(s[1..]);
      assert s == [s[0]] + s[1..];
    }
  }

  lemma {:induction false} CloseTagGapsNoSpace(s: string)
    requires NoSpace(s)
    ensures CloseTagGaps(s) == s
    decreases |s|
  {
    if s != [] {
      NoSpaceTail(s);
      if |s| >= 2 {
        assert s[1..][0] == s[1];
      }
      assert !GapHere(s);
      CloseTagGapsNoSpace(s[1..]);
      assert s == [s[0]] + s[1..];
    }
  }

  lemma {:induction false} CollapseNoSpace(s: string)
    requires NoSpace(s)
    ensures Collapse(s) == s
    decreases |s|
  {
    if s != [] {
      NoSpaceTail(s);
      CollapseNoSpace(s[1..]);
      assert s == [s[0]] + s[1..];
    }
  }

  /** Text without whitespace is already minified. */
  lemma MinifyNoSpace(s: string)
    requires NoSpace(s)
    ensures Minify(s) == s
  {
    StripBreaksNoSpace(s);
    CloseTagGapsNoSpace(s);
    CollapseNoSpace(s);
    if s != [] {
      assert !IsSpace(s[0]) && !IsSpace(s[|s| - 1]);
      assert TrimStart(s) == s;
      assert TrimEnd(s) == s;
    }
  }
}
