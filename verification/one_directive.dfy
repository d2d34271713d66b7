/**
 * Markup holding exactly one directive `{% x %}`, `{{ x }}` or `{# x #}`
 * whose inside `x` holds no brace, `%`, `#` or `_`: shielding swaps it for
 * the placeholder of index 0 and leaves everything else as it is, and either
 * restoration puts it back in that place (src/utils/SerializeUtils.ts,
 * lines 9-27 and 48-54; src/components/Serializer.tsx, lines 56-70 and
 * 155-157).
 */
module OneDirective {
  import opened Text
  import opened Wrappers
  import opened Minification
  import opened Shielding
  import opened ShieldProofs

  /** One of the three delimiter pairs. */
  predicate IsPair(open: string, close: string) {
    || (open == StatementOpen && close == StatementClose)
    || (open == ExpressionOpen && close == ExpressionClose)
    || (open == CommentOpen && close == CommentClose)
  }

  /** What the inside of a directive may hold here: anything, `<`, `>` and
      whitespace included, but no delimiter character and no `_`. */
  predicate Inner(x: string) {
    Lacks(x, '{') && Lacks(x, '}') && Lacks(x, '%') && Lacks(x, '#') && Lacks(x, '_')
  }

  /** A text without the closer's first character is passed over by the search. */
  lemma {:induction false} FindClosePast(x: string, y: string, close: string)
    requires |close| == 2 && Lacks(x, close[0])
    ensures FindClose(x + y, close) == Shift(FindClose(y, close), |x|)
    decreases |x|
  {
    if x == [] {
      assert x + y == y;
      assert Shift(FindClose(y, close), 0) == FindClose(y, close) by {
        match FindClose(y, close)
        case None =>
        case Some(j) =>
      }
    } else {
      assert (x + y)[1..] == x[1..] + y;
      FindClosePast(x[1..], y, close);
      FindCloseCons(x[0], x[1..] + y, close);
      assert [x[0]] + (x[1..] + y) == x + y;
    }
  }

  lemma InnerDirective(open: string, x: string, close: string)
    requires IsPair(open, close) && Inner(x)
    ensures Lacks(x + close, '{') && Lacks(x, close[0])
    ensures Lacks(open + x + close, '_')
  {
    LacksAppend(x, close, '{');
    LacksAppend(open, x, '_');
    LacksAppend(open + x, close, '_');
  }

  /** The pass for the directive's own kind captures it as entry `n`. */
  lemma PassOwn(open: string, x: string, close: string, b: string, n: nat)
    requires IsPair(open, close) && Inner(x) && Lacks(b, '{')
    ensures Pass(open + x + close + b, open, close, n)
      == Shielded(Placeholder(n) + b, [open + x + close])
  {
    var d := open + x + close;
    var s := d + b;
    InnerDirective(open, x, close);
    assert s[2..] == x + (close + b);
    assert FindClose(close + b, close) == Some(0);
    FindClosePast(x, close + b, close);
    assert s[..|x| + 4] == d;
    assert s[|x| + 4..] == b;
    PassWithoutOpener(b, open, close, n + 1);
    assert [d] + [] == [d];
  }

  /** The characters of a delimiter pair. */
  lemma PairChars(open: string, close: string)
    requires IsPair(open, close)
    ensures |open| == 2 && |close| == 2 && open[0] == '{' && open == [open[0], open[1]]
    ensures open[1] == '%' || open[1] == '{' || open[1] == '#'
    ensures close[0] == (if open[1] == '{' then '}' else open[1])
  {
  }

  /** The passes for the other two kinds leave the directive alone. */
  lemma PassOther(open: string, x: string, close: string, b: string, open2: string, close2: string, n: nat)
    requires IsPair(open, close) && IsPair(open2, close2) && open != open2
    requires Inner(x) && Lacks(b, '{')
    ensures Pass(open + x + close + b, open2, close2, n) == Shielded(open + x + close + b, [])
  {
    PairChars(open, close);
    PairChars(open2, close2);
    assert open[1] != open2[1];
    InnerDirective(open, x, close);
    var t := x + close + b;
    LacksAppend(x + close, b, '{');
    PassWithoutOpener(t, open2, close2, n);
    assert t[0] == if x != [] then x[0] else close[0];
    assert open[1] == '{' ==> t[0] != open2[1];
    SkipOpener(open[0], open[1], t, open2, close2, n);
    Regroup(open, x, close, b);
  }

  lemma Regroup(open: string, x: string, close: string, b: string)
    requires |open| == 2
    ensures [open[0]] + ([open[1]] + (x + close + b)) == open + x + close + b
  {
    assert open == [open[0]] + [open[1]];
  }

  /** Two characters that open nothing for this pass, before text the pass leaves alone. */
  lemma SkipOpener(c0: char, c1: char, t: string, open: string, close: string, n: nat)
    requires |open| == 2 && |close| == 2 && c1 != open[1]
    requires t != [] && c1 == open[0] ==> t[0] != open[1]
    requires Pass(t, open, close, n) == Shielded(t, [])
    ensures Pass([c0] + ([c1] + t), open, close, n) == Shielded([c0] + ([c1] + t), [])
  {
    PassSkipOne(c1, t, open, close, n);
    PassSkipOne(c0, [c1] + t, open, close, n);
  }

  /** The three passes over one directive with literal text around it. */
  lemma ShieldOne(a: string, open: string, x: string, close: string, b: string)
    requires IsPair(open, close) && Inner(x) && Lacks(a, '{') && Lacks(b, '{')
    ensures Shield(a + (open + x + close) + b) == Shielded(a + Placeholder(0) + b, [open + x + close])
  {
    var d := open + x + close;
    var s := a + d + b;
    var t := a + Placeholder(0) + b;
    assert s == a + (d + b);
    assert t == a + (Placeholder(0) + b);
    assert Lacks(t, '{') by {
      LacksAppend(a, Placeholder(0), '{');
      LacksAppend(a + Placeholder(0), b, '{');
    }
    assert StatementOpen[0] == '{' && ExpressionOpen[0] == '{' && CommentOpen[0] == '{';
    PassNoBrace(a, d + b, StatementOpen, StatementClose, 0);
    PassNoBrace(a, d + b, ExpressionOpen, ExpressionClose, 0);
    PassNoBrace(a, d + b, CommentOpen, CommentClose, 0);
    if open == StatementOpen {
      PassOwn(open, x, close, b, 0);
      PassWithoutOpener(t, ExpressionOpen, ExpressionClose, 1);
      PassWithoutOpener(t, CommentOpen, CommentClose, 1);
      ShieldSteps(s, t, [d], 1, t, [], 1, t, []);
    } else if open == ExpressionOpen {
      PassOther(open, x, close, b, StatementOpen, StatementClose, 0);
      PassOwn(open, x, close, b, 0);
      PassWithoutOpener(t, CommentOpen, CommentClose, 1);
      ShieldSteps(s, s, [], 0, t, [d], 1, t, []);
    } else {
      PassOther(open, x, close, b, StatementOpen, StatementClose, 0);
      PassOther(open, x, close, b, ExpressionOpen, ExpressionClose, 0);
      PassOwn(open, x, close, b, 0);
      ShieldSteps(s, s, [], 0, s, [], 0, t, [d]);
    }
  }

  /** A first character other than `_` starts no placeholder match. */
  lemma NoMatchHere(s: string)
    requires s != [] && s[0] != '_'
    ensures MatchAt(s).None?
  {
    assert Prefix[0] == '_';
    if |Prefix| <= |s| {
      assert s[..|Prefix|][0] == s[0];
    }
    assert !StartsWith(s, Prefix);
  }

  /** A character other than `_` comes back from either restoration as it is. */
  lemma RestoreSkipOne(c: char, t: string, blocks: seq<string>)
    requires c != '_'
    ensures Restore([c] + t, blocks) == [c] + Restore(t, blocks)
    ensures RestoreFlat([c] + t, blocks) == [c] + RestoreFlat(t, blocks)
  {
    NoMatchHere([c] + t);
    assert ([c] + t)[1..] == t;
  }

  /** Text without `_` holds no placeholder and comes back from either
      restoration with what follows restored after it. */
  lemma {:induction false} RestoreLiteral(a: string, r: string, blocks: seq<string>)
    requires Lacks(a, '_')
    ensures Restore(a + r, blocks) == a + Restore(r, blocks)
    decreases |a|
  {
    if a == [] {
      assert a + r == r;
    } else {
      RestoreLiteral(a[1..], r, blocks);
      ConsSplit(a, r, Restore(r, blocks));
      RestoreSkipOne(a[0], a[1..] + r, blocks);
    }
  }

  lemma {:induction false} RestoreFlatLiteral(a: string, r: string, blocks: seq<string>)
    requires Lacks(a, '_')
    ensures RestoreFlat(a + r, blocks) == a + RestoreFlat(r, blocks)
    decreases |a|
  {
    if a == [] {
      assert a + r == r;
    } else {
      RestoreFlatLiteral(a[1..], r, blocks);
      ConsSplit(a, r, RestoreFlat(r, blocks));
      RestoreSkipOne(a[0], a[1..] + r, blocks);
    }
  }

  /** Either restoration puts a directive without `_` back where its placeholder is. */
  lemma RestoreOne(a: string, d: string, b: string)
    requires Lacks(a, '_') && Lacks(b, '_') && Lacks(d, '_')
    ensures Restore(a + Placeholder(0) + b, [d]) == a + d + b
    ensures RestoreFlat(a + Placeholder(0) + b, [d]) == a + d + b
  {
    var p := Placeholder(0);
    assert a + p + b == a + (p + b);
    RestoreLiteral(a, p + b, [d]);
    RestoreFlatLiteral(a, p + b, [d]);
    MatchPlaceholder(0, b);
    assert (p + b)[|p|..] == b;
    NoUnderscore(d);
    NoUnderscore(b);
    RestoreWithoutPrefix(d, []);
    RestoreWithoutPrefix(b, [d]);
    assert [d][..0] == [];
  }
}
