/**
 * Directive shielding: the three extraction passes that swap every `{% %}`,
 * `{{ }}` and `{# #}` span for `___TWIG_BLOCK_<i>___`, and the restoration
 * pass that puts the spans back (src/utils/SerializeUtils.ts, copied verbatim
 * in src/components/Serializer.tsx).
 */
module Shielding {
  import opened Text
  import opened Wrappers

  const Prefix: string := "___TWIG_BLOCK_"
  const Suffix: string := "___"

  /** Text left in place of the capture with index `k`. */
  function Placeholder(k: nat): (r: string)
    ensures StartsWith(r, Prefix) && |r| > |Prefix| + |Suffix|
    ensures forall i :: 0 <= i < |r| ==> IsWordChar(r[i])
  {
    Prefix + NatToString(k) + Suffix
  }

  /** The delimiter pairs, in the order the passes run. */
  const StatementOpen: string := "{%"
  const StatementClose: string := "%}"
  const ExpressionOpen: string := "{{"
  const ExpressionClose: string := "}}"
  const CommentOpen: string := "{#"
  const CommentClose: string := "#}"

  /** What every pair has in common: an opener starting with `{` and
      no delimiter character that can occur in a placeholder. */
  predicate DelimiterPair(open: string, close: string) {
    |open| == 2 && |close| == 2 && open[0] == '{' && !IsWordChar(open[1])
    && !IsWordChar(close[0]) && !IsWordChar(close[1])
  }

  lemma DelimiterPairs()
    ensures DelimiterPair(StatementOpen, StatementClose)
    ensures DelimiterPair(ExpressionOpen, ExpressionClose)
    ensures DelimiterPair(CommentOpen, CommentClose)
  {
  }

  /** `close` starts at offset `j` of `u`. */
  predicate CloseAt(u: string, j: int, close: string)
    requires |close| == 2
  {
    0 <= j && j + 2 <= |u| && u[j] == close[0] && u[j + 1] == close[1]
  }

  lemma CloseAtTail(u: string, close: string)
    requires |close| == 2 && u != []
    ensures forall j :: 0 <= j ==> (CloseAt(u[1..], j, close) <==> CloseAt(u, j + 1, close))
    ensures forall j :: 1 <= j ==> (CloseAt(u, j, close) <==> CloseAt(u[1..], j - 1, close))
  {
  }

  /** Offset in `u` of the first occurrence of the two-character `close`:
      the lazy `[\s\S]*?` followed by the closer. */
  function FindClose(u: string, close: string): (r: Option<nat>)
    requires |close| == 2
    ensures r.Some? ==> r.value + 2 <= |u|
    decreases |u|
  {
    if |u| < 2 then None
    else if u[0] == close[0] && u[1] == close[1] then Some(0)
    else match FindClose(u[1..], close)
      case None => None
      case Some(j) => Some(j + 1)
  }

  /** The search finds the first closer, and reports none only when there is none. */
  lemma {:induction false} FindCloseFirst(u: string, close: string)
    requires |close| == 2
    ensures FindClose(u, close).Some? ==> CloseAt(u, FindClose(u, close).value, close)
    ensures FindClose(u, close).Some? ==> forall j :: 0 <= j < FindClose(u, close).value ==> !CloseAt(u, j, close)
    ensures FindClose(u, close).None? ==> forall j :: !CloseAt(u, j, close)
    decreases |u|
  {
    if |u| >= 2 {
      FindCloseFirst(u[1..], close);
      CloseAtTail(u, close);
    }
  }

  /** Text with its directives swapped out, and the side table of captured spans. */
  datatype Shielded = Shielded(text: string, blocks: seq<string>)

  /** A captured span: opener, then the shortest run up to the first closer. */
  predicate IsCapture(b: string, open: string, close: string)
    requires |open| == 2 && |close| == 2
  {
    |b| >= 4 && b[0] == open[0] && b[1] == open[1] && FindClose(b[2..], close) == Some(|b| - 4)
  }

  lemma FindCloseTruncate(u: string, close: string, m: nat)
    requires |close| == 2 && FindClose(u, close) == Some(m)
    ensures FindClose(u[..m + 2], close) == Some(m)
  {
    var v := u[..m + 2];
    FindCloseFirst(u, close);
    FindCloseFirst(v, close);
    assert forall j :: CloseAt(v, j, close) ==> CloseAt(u, j, close);
    assert CloseAt(v, m, close);
  }

  /** Dropping a prefix keeps a text free of closers. */
  lemma FindCloseNoneSuffix(u: string, close: string, k: nat)
    requires |close| == 2 && FindClose(u, close).None? && k <= |u|
    ensures FindClose(u[k..], close).None?
  {
    FindCloseFirst(u, close);
    FindCloseFirst(u[k..], close);
    assert forall j :: CloseAt(u[k..], j, close) ==> CloseAt(u, j + k, close);
  }

  /**
   * One global `replace(/OPEN[\s\S]*?CLOSE/g, ...)` whose callback appends the
   * match to the side table and returns the placeholder for its index; `n` is
   * the table's length when the pass starts.
   */
  function Pass(s: string, open: string, close: string, n: nat): (r: Shielded)
    requires |open| == 2 && |close| == 2
    decreases |s|
  {
    if |s| < 2 then Shielded(s, [])
    else if s[0] == open[0] && s[1] == open[1] && FindClose(s[2..], close).Some? then
      var j := FindClose(s[2..], close).value + 4;
      var rest := Pass(s[j..], open, close, n + 1);
      Shielded(Placeholder(n) + rest.text, [s[..j]] + rest.blocks)
    else
      var rest := Pass(s[1..], open, close, n);
      Shielded([s[0]] + rest.text, rest.blocks)
  }

  /** Every entry a pass adds to the table is one whole directive of its kind. */
  lemma {:induction false} PassCaptures(s: string, open: string, close: string, n: nat)
    requires |open| == 2 && |close| == 2
    ensures forall b :: b in Pass(s, open, close, n).blocks ==> IsCapture(b, open, close)
    decreases |s|
  {
    if |s| < 2 {
    } else if s[0] == open[0] && s[1] == open[1] && FindClose(s[2..], close).Some? {
      var j := FindClose(s[2..], close).value + 4;
      PassCaptures(s[j..], open, close, n + 1);
      FindCloseTruncate(s[2..], close, j - 4);
      assert s[..j][2..] == s[2..][..j - 2];
    } else {
      PassCaptures(s[1..], open, close, n);
    }
  }

  /** An opener with no closer anywhere after it stays literal text. */
  lemma {:induction false} PassWithoutCloser(s: string, open: string, close: string, n: nat)
    requires |open| == 2 && |close| == 2
    requires FindClose(s, close).None?
    ensures Pass(s, open, close, n) == Shielded(s, [])
    decreases |s|
  {
    if |s| >= 2 {
      FindCloseNoneSuffix(s, close, 2);
      FindCloseNoneSuffix(s, close, 1);
      PassWithoutCloser(s[1..], open, close, n);
    }
  }

  /** The three passes in their fixed order, each over the previous pass's output;
      the table is shared, so indices run on from one pass to the next. */
  function Shield(s: string): Shielded {
    var a := Pass(s, StatementOpen, StatementClose, 0);
    var b := Pass(a.text, ExpressionOpen, ExpressionClose, |a.blocks|);
    var c := Pass(b.text, CommentOpen, CommentClose, |a.blocks| + |b.blocks|);
    Shielded(c.text, a.blocks + b.blocks + c.blocks)
  }

  /**
   * One pass as the source runs it: the scan appends each capture to the shared
   * table `blocks` as it goes and emits its placeholder, numbered by the
   * table's length at that moment.
   */
  method RunPass(s: string, open: string, close: string, table: seq<string>)
    returns (text: string, blocks: seq<string>)
    requires |open| == 2 && |close| == 2
    ensures text == Pass(s, open, close, |table|).text
    ensures blocks == table + Pass(s, open, close, |table|).blocks
  {
    var i := 0;
    text, blocks := [], table;
    ScanStart(s, open, close, table);
    while i < |s| - 1
      invariant 0 <= i <= |s|
      invariant ScanOut(s, open, close, i, text, blocks) == Whole(s, open, close, table)
      decreases |s| - i
    {
      var u := s[i..];
      var f := FindClose(u[2..], close);
      if u[0] == open[0] && u[1] == open[1] && f.Some? {
        var j := f.value + 4;
        ScanCapture(s, open, close, i, j, text, blocks);
        text, blocks, i := text + Placeholder(|blocks|), blocks + [u[..j]], i + j;
      } else {
        ScanLiteral(s, open, close, i, text, blocks);
        text, i := text + [u[0]], i + 1;
      }
    }
    ScanEnd(s, open, close, i, text, blocks);
    text := text + s[i..];
  }

  /** The pass over `s` with the table it extends. */
  function Whole(s: string, open: string, close: string, table: seq<string>): Shielded
    requires |open| == 2 && |close| == 2
  {
    var p := Pass(s, open, close, |table|);
    Shielded(p.text, table + p.blocks)
  }

  /** A scan that has reached offset `i` having produced `text` and `blocks`,
      followed by what the pass makes of the rest. */
  function ScanOut(s: string, open: string, close: string, i: nat, text: string, blocks: seq<string>): Shielded
    requires |open| == 2 && |close| == 2 && i <= |s|
  {
    var rest := Pass(s[i..], open, close, |blocks|);
    Shielded(text + rest.text, blocks + rest.blocks)
  }

  lemma ScanStart(s: string, open: string, close: string, table: seq<string>)
    requires |open| == 2 && |close| == 2
    ensures ScanOut(s, open, close, 0, [], table) == Whole(s, open, close, table)
  {
    assert s[0..] == s;
  }

  lemma AppendAssoc<T>(a: seq<T>, b: seq<T>, c: seq<T>)
    ensures a + b + c == a + (b + c)
  {
  }

  /** A directive found at offset `i` moves the scan past it. */
  lemma ScanCapture(s: string, open: string, close: string, i: nat, j: nat, text: string, blocks: seq<string>)
    requires |open| == 2 && |close| == 2 && i + 1 < |s|
    requires s[i] == open[0] && s[i + 1] == open[1] && FindClose(s[i..][2..], close).Some?
    requires j == FindClose(s[i..][2..], close).value + 4
    ensures i + j <= |s|
    ensures ScanOut(s, open, close, i + j, text + Placeholder(|blocks|), blocks + [s[i..][..j]])
      == ScanOut(s, open, close, i, text, blocks)
  {
    var n := |blocks|;
    assert s[i..][j..] == s[i + j..];
    var rest := Pass(s[i + j..], open, close, n + 1);
    AppendAssoc(text, Placeholder(n), rest.text);
    AppendAssoc(blocks, [s[i..][..j]], rest.blocks);
  }

  /** A character that starts no directive is copied. */
  lemma ScanLiteral(s: string, open: string, close: string, i: nat, text: string, blocks: seq<string>)
    requires |open| == 2 && |close| == 2 && i + 1 < |s|
    requires !(s[i] == open[0] && s[i + 1] == open[1] && FindClose(s[i..][2..], close).Some?)
    ensures ScanOut(s, open, close, i + 1, text + [s[i]], blocks) == ScanOut(s, open, close, i, text, blocks)
  {
    assert s[i..][1..] == s[i + 1..];
    var rest := Pass(s[i + 1..], open, close, |blocks|);
    AppendAssoc(text, [s[i]], rest.text);
  }

  /** Fewer than two characters left: they are copied and nothing more is captured. */
  lemma ScanEnd(s: string, open: string, close: string, i: nat, text: string, blocks: seq<string>)
    requires |open| == 2 && |close| == 2 && |s| <= i + 1 && i <= |s|
    ensures ScanOut(s, open, close, i, text, blocks) == Shielded(text + s[i..], blocks)
  {
    assert blocks + [] == blocks;
  }

  /** The three passes run one after the other over a table that starts empty. */
  method ShieldText(s: string) returns (r: Shielded)
    ensures r == Shield(s)
  {
    var a, t0 := RunPass(s, StatementOpen, StatementClose, []);
    ghost var pa := Pass(s, StatementOpen, StatementClose, 0);
    assert t0 == pa.blocks;
    var b, t1 := RunPass(a, ExpressionOpen, ExpressionClose, t0);
    ghost var pb := Pass(a, ExpressionOpen, ExpressionClose, |t0|);
    var c, t2 := RunPass(b, CommentOpen, CommentClose, t1);
    ghost var pc := Pass(b, CommentOpen, CommentClose, |t1|);
    ShieldSteps(s, a, t0, |t0|, b, pb.blocks, |t1|, c, pc.blocks);
    r := Shielded(c, t2);
  }

  /** `Shield` from the results of its three passes. */
  lemma ShieldSteps(s: string, t1: string, b1: seq<string>, n1: nat, t2: string, b2: seq<string>, n2: nat,
                    t3: string, b3: seq<string>)
    requires n1 == |b1| && n2 == |b1| + |b2|
    requires Pass(s, StatementOpen, StatementClose, 0) == Shielded(t1, b1)
    requires Pass(t1, ExpressionOpen, ExpressionClose, n1) == Shielded(t2, b2)
    requires Pass(t2, CommentOpen, CommentClose, n2) == Shielded(t3, b3)
    ensures Shield(s) == Shielded(t3, b1 + b2 + b3)
  {
  }

  /** Every entry of the shared table is a whole directive of one of the three kinds. */
  lemma ShieldCaptures(s: string)
    ensures forall i :: 0 <= i < |Shield(s).blocks| ==>
      IsCapture(Shield(s).blocks[i], StatementOpen, StatementClose)
      || IsCapture(Shield(s).blocks[i], ExpressionOpen, ExpressionClose)
      || IsCapture(Shield(s).blocks[i], CommentOpen, CommentClose)
  {
    var a := Pass(s, StatementOpen, StatementClose, 0);
    var b := Pass(a.text, ExpressionOpen, ExpressionClose, |a.blocks|);
    var c := Pass(b.text, CommentOpen, CommentClose, |a.blocks| + |b.blocks|);
    PassCaptures(s, StatementOpen, StatementClose, 0);
    PassCaptures(a.text, ExpressionOpen, ExpressionClose, |a.blocks|);
    PassCaptures(b.text, CommentOpen, CommentClose, |a.blocks| + |b.blocks|);
    var all := a.blocks + b.blocks + c.blocks;
    assert forall i :: 0 <= i < |all| ==> all[i] in a.blocks || all[i] in b.blocks || all[i] in c.blocks;
  }

  /** Text without any `{` has nothing to shield. */
  lemma {:induction false} ShieldWithoutBrace(s: string)
    requires forall i :: 0 <= i < |s| ==> s[i] != '{'
    ensures Shield(s) == Shielded(s, [])
  {
    PassWithoutOpener(s, StatementOpen, StatementClose, 0);
    PassWithoutOpener(s, ExpressionOpen, ExpressionClose, 0);
    PassWithoutOpener(s, CommentOpen, CommentClose, 0);
  }

  lemma {:induction false} PassWithoutOpener(s: string, open: string, close: string, n: nat)
    requires |open| == 2 && |close| == 2 && open[0] == '{'
    requires forall i :: 0 <= i < |s| ==> s[i] != '{'
    ensures Pass(s, open, close, n) == Shielded(s, [])
    decreases |s|
  {
    if |s| >= 2 {
      PassWithoutOpener(s[1..], open, close, n);
    }
  }

  // ------------------------------------------------------------ restoration

  /** A match of `___TWIG_BLOCK_(\d+)___`: the parsed index and the match length. */
  datatype Match = Match(index: nat, length: nat)

  /** Length of the leading run of decimal digits (the greedy `\d+`). */
  function DigitRun(s: string): (n: nat)
    ensures n <= |s|
    ensures forall i :: 0 <= i < n ==> IsDigit(s[i])
    ensures n < |s| ==> !IsDigit(s[n])
  {
    if s != [] && IsDigit(s[0]) then 1 + DigitRun(s[1..]) else 0
  }

  /** The placeholder pattern tried at the start of `s`. */
  function MatchAt(s: string): (r: Option<Match>)
    ensures r.Some? ==> 0 < r.value.length <= |s| && StartsWith(s, Prefix)
  {
    if !StartsWith(s, Prefix) then None
    else
      var d := DigitRun(s[|Prefix|..]);
      if d == 0 || !StartsWith(s[|Prefix| + d..], Suffix) then None
      else Some(Match(DigitsValue(s[|Prefix|..|Prefix| + d]), |Prefix| + d + |Suffix|))
  }

  /** The text a placeholder for an index the table does not hold turns into. */
  const Undefined: string := "undefined"

  /**
   * Restoration as written: one global replace that puts `blocks[i]` in place
   * of every placeholder, without looking inside the inserted text again.
   */
  function RestoreFlat(s: string, blocks: seq<string>): (r: string)
    decreases |s|
  {
    if s == [] then []
    else match MatchAt(s)
      case Some(m) => (if m.index < |blocks| then blocks[m.index] else Undefined) + RestoreFlat(s[m.length..], blocks)
      case None => [s[0]] + RestoreFlat(s[1..], blocks)
  }

  /**
   * Restoration as intended: a span captured by a later pass may hold the
   * placeholder of an earlier capture, so `blocks[i]` is itself restored with
   * the entries before it.
   */
  function Restore(s: string, blocks: seq<string>): (r: string)
    decreases |blocks|, |s|
  {
    if s == [] then []
    else match MatchAt(s)
      case Some(m) =>
        (if m.index < |blocks| then Restore(blocks[m.index], blocks[..m.index]) else Undefined)
        + Restore(s[m.length..], blocks)
      case None => [s[0]] + Restore(s[1..], blocks)
  }

  /** Text holding no placeholder prefix comes back unchanged, whatever the table. */
  lemma {:induction false} RestoreWithoutPrefix(s: string, blocks: seq<string>)
    requires !Contains(s, Prefix)
    ensures Restore(s, blocks) == s && RestoreFlat(s, blocks) == s
    decreases |s|
  {
    if s != [] {
      RestoreWithoutPrefix(s[1..], blocks);
    }
  }

  /** When no captured span holds placeholder text, the single-pass restoration
      as written agrees with the intended one. */
  lemma {:induction false} FlatRestoreAgrees(s: string, blocks: seq<string>)
    requires forall k :: 0 <= k < |blocks| ==> !Contains(blocks[k], Prefix)
    ensures RestoreFlat(s, blocks) == Restore(s, blocks)
    decreases |s|
  {
    if s != [] {
      match MatchAt(s)
      case Some(m) =>
        if m.index < |blocks| { RestoreWithoutPrefix(blocks[m.index], blocks[..m.index]); }
        FlatRestoreAgrees(s[m.length..], blocks);
      case None =>
        FlatRestoreAgrees(s[1..], blocks);
    }
  }
}
