/**
 * Why shielding is reversible: the shielded text is viewed as a sequence of
 * segments, each a literal character or a placeholder; the passes and the
 * restoration are shown to act on that view, where the round trip is plain.
 */
module ShieldProofs {
  import opened Text
  import opened Wrappers
  import opened Shielding

  datatype Seg = Lit(c: char) | Ref(k: nat)

  function SegText(g: Seg): (r: string)
    ensures |r| > 0
  {
    match g
    case Lit(c) => [c]
    case Ref(k) => Placeholder(k)
  }

  /** The text a segment sequence spells. */
  function Flat(v: seq<Seg>): (r: string)
    ensures |r| >= |v|
  {
    if v == [] then [] else SegText(v[0]) + Flat(v[1..])
  }

  lemma {:induction false} FlatAppend(a: seq<Seg>, b: seq<Seg>)
    ensures Flat(a + b) == Flat(a) + Flat(b)
  {
    if a == [] {
      assert a + b == b;
    } else {
      assert (a + b)[1..] == a[1..] + b;
      FlatAppend(a[1..], b);
    }
  }

  /** A literal-only view of a text. */
  function Lits(s: string): (v: seq<Seg>)
    ensures |v| == |s| && forall i :: 0 <= i < |s| ==> v[i] == Lit(s[i])
  {
    if s == [] then [] else [Lit(s[0])] + Lits(s[1..])
  }

  lemma {:induction false} FlatLits(s: string)
    ensures Flat(Lits(s)) == s
  {
    if s != [] {
      assert Lits(s)[1..] == Lits(s[1..]);
      FlatLits(s[1..]);
    }
  }

  function Flats(cs: seq<seq<Seg>>): (r: seq<string>)
    ensures |r| == |cs| && forall i :: 0 <= i < |cs| ==> r[i] == Flat(cs[i])
  {
    if cs == [] then [] else [Flat(cs[0])] + Flats(cs[1..])
  }

  predicate RefsBelow(v: seq<Seg>, n: nat) {
    forall i :: 0 <= i < |v| && v[i].Ref? ==> v[i].k < n
  }

  /** What a placeholder for index `k` restores to. */
  function Expand(k: nat, blocks: seq<string>): string {
    if k < |blocks| then Restore(blocks[k], blocks[..k]) else Undefined
  }

  function DenoteSeg(g: Seg, blocks: seq<string>): string {
    match g
    case Lit(c) => [c]
    case Ref(k) => Expand(k, blocks)
  }

  /** The text a segment sequence stands for once every placeholder is expanded. */
  function Denote(v: seq<Seg>, blocks: seq<string>): string {
    if v == [] then [] else DenoteSeg(v[0], blocks) + Denote(v[1..], blocks)
  }

  lemma {:induction false} DenoteAppend(a: seq<Seg>, b: seq<Seg>, blocks: seq<string>)
    ensures Denote(a + b, blocks) == Denote(a, blocks) + Denote(b, blocks)
  {
    if a == [] {
      assert a + b == b;
    } else {
      assert (a + b)[1..] == a[1..] + b;
      DenoteAppend(a[1..], b, blocks);
    }
  }

  lemma ExpandExtend(k: nat, blocks: seq<string>, more: seq<string>)
    requires k < |blocks|
    ensures Expand(k, blocks + more) == Expand(k, blocks)
  {
    assert (blocks + more)[..k] == blocks[..k];
  }

  lemma {:induction false} DenoteExtend(v: seq<Seg>, blocks: seq<string>, more: seq<string>)
    requires RefsBelow(v, |blocks|)
    ensures Denote(v, blocks + more) == Denote(v, blocks)
  {
    if v != [] {
      if v[0].Ref? { ExpandExtend(v[0].k, blocks, more); }
      DenoteExtend(v[1..], blocks, more);
    }
  }

  lemma {:induction false} DenoteLits(s: string, blocks: seq<string>)
    ensures Denote(Lits(s), blocks) == s
  {
    if s != [] {
      assert Lits(s)[1..] == Lits(s[1..]);
      DenoteLits(s[1..], blocks);
    }
  }

  // ------------------------------------------------------------ literal runs

  /** The characters of the leading run of literal segments. */
  function LeadLits(v: seq<Seg>): (r: string)
    ensures |r| <= |v|
    ensures |r| < |v| ==> v[|r|].Ref?
  {
    if v != [] && v[0].Lit? then [v[0].c] + LeadLits(v[1..]) else []
  }

  /** No run of literal segments spells the placeholder prefix. */
  predicate RunsFree(v: seq<Seg>) {
    v == [] || ((v[0].Lit? ==> !StartsWith(LeadLits(v), Prefix)) && RunsFree(v[1..]))
  }

  predicate IsPrefix(a: string, b: string) { |a| <= |b| && b[..|a|] == a }

  lemma {:induction false} LeadLitsOfLits(s: string)
    ensures LeadLits(Lits(s)) == s
  {
    if s != [] {
      var v := Lits(s);
      LeadLitsHead(v);
      assert v[1..] == Lits(s[1..]);
      LeadLitsOfLits(s[1..]);
      assert s == [s[0]] + s[1..];
    }
  }

  lemma LeadLitsHead(v: seq<Seg>)
    requires v != [] && v[0].Lit?
    ensures LeadLits(v) == [v[0].c] + LeadLits(v[1..])
  {
  }

  lemma {:induction false} RunsFreeLits(s: string)
    requires !Contains(s, Prefix)
    ensures RunsFree(Lits(s))
  {
    if s != [] {
      LeadLitsOfLits(s);
      assert Lits(s)[1..] == Lits(s[1..]);
      RunsFreeLits(s[1..]);
    }
  }

  lemma {:induction false} FlatLead(v: seq<Seg>)
    ensures Flat(v) == LeadLits(v) + Flat(v[|LeadLits(v)|..])
  {
    if v != [] && v[0].Lit? {
      FlatLead(v[1..]);
      assert v[1..][|LeadLits(v[1..])|..] == v[|LeadLits(v)|..];
    }
  }

  lemma {:induction false} LeadLitsPrefix(v: seq<Seg>, m: nat)
    requires m <= |v|
    ensures IsPrefix(LeadLits(v[..m]), LeadLits(v))
  {
    if m > 0 && v[0].Lit? {
      assert v[..m][1..] == v[1..][..m - 1];
      LeadLitsPrefix(v[1..], m - 1);
    }
  }

  lemma {:induction false} RunsFreePrefix(v: seq<Seg>, m: nat)
    requires RunsFree(v) && m <= |v|
    ensures RunsFree(v[..m])
  {
    if m > 0 {
      LeadLitsPrefix(v, m);
      assert v[..m][1..] == v[1..][..m - 1];
      RunsFreePrefix(v[1..], m - 1);
    }
  }

  lemma {:induction false} RunsFreeSuffix(v: seq<Seg>, m: nat)
    requires RunsFree(v) && m <= |v|
    ensures RunsFree(v[m..])
  {
    if m > 0 {
      assert v[1..][m - 1..] == v[m..];
      RunsFreeSuffix(v[1..], m - 1);
    }
  }

  // ------------------------------------------------------------ matching placeholders

  lemma {:induction false} DigitRunOf(d: string, rest: string)
    requires forall i :: 0 <= i < |d| ==> IsDigit(d[i])
    requires rest != [] && !IsDigit(rest[0])
    ensures DigitRun(d + rest) == |d|
  {
    if d != [] {
      assert (d + rest)[1..] == d[1..] + rest;
      DigitRunOf(d[1..], rest);
    }
  }

  lemma FourParts<T>(p: seq<T>, d: seq<T>, q: seq<T>, y: seq<T>)
    ensures (p + d + q + y)[..|p|] == p
    ensures (p + d + q + y)[|p|..] == d + (q + y)
    ensures (p + d + q + y)[|p| + |d|..] == q + y
    ensures (p + d + q + y)[|p|..|p| + |d|] == d
    ensures (q + y)[..|q|] == q
  {
  }

  lemma MatchParts(d: string, y: string)
    requires d != [] && forall i :: 0 <= i < |d| ==> IsDigit(d[i])
    ensures MatchAt(Prefix + d + Suffix + y) == Some(Match(DigitsValue(d), |Prefix| + |d| + |Suffix|))
  {
    FourParts(Prefix, d, Suffix, y);
    DigitRunOf(d, Suffix + y);
  }

  /** A placeholder is matched as a whole and yields its own index. */
  lemma MatchPlaceholder(k: nat, y: string)
    ensures MatchAt(Placeholder(k) + y) == Some(Match(k, |Placeholder(k)|))
  {
    MatchParts(NatToString(k), y);
    DigitsValueOfNatToString(k);
  }

  /** The placeholder prefix overlaps a shifted copy of itself only by its last character. */
  lemma PrefixOverlap(f: string, m: nat)
    requires 1 <= m < |Prefix| && |f| >= m + 4
    requires StartsWith(f, Prefix) && f[m] == '_' && f[m + 1] == '_' && f[m + 2] == '_' && f[m + 3] == 'T'
    ensures m == |Prefix| - 1
  {
    assert f[..|Prefix|] == Prefix;
    assert forall i :: 0 <= i < |Prefix| ==> f[i] == Prefix[i];
  }

  /** A short literal run followed by a placeholder: the prefix could only be
      matched across the boundary, where the placeholder's fifteenth character
      is `_` and not a digit. */
  lemma NoMatchBeforePlaceholder(w: string, k: nat, tail: string)
    requires 1 <= |w| < |Prefix|
    ensures MatchAt(w + Placeholder(k) + tail) == None
  {
    var p := Placeholder(k);
    var f := w + p + tail;
    var m := |w|;
    assert p[..|Prefix|] == Prefix;
    assert f[m] == p[0] && f[m + 1] == p[1] && f[m + 2] == p[2] && f[m + 3] == p[3];
    if StartsWith(f, Prefix) {
      PrefixOverlap(f, m);
      assert f[|Prefix|..][0] == p[1];
    }
  }

  /** A literal run that does not spell the prefix starts no placeholder match. */
  lemma NoMatchAtLit(v: seq<Seg>)
    requires v != [] && v[0].Lit? && !StartsWith(LeadLits(v), Prefix)
    ensures MatchAt(Flat(v)) == None
  {
    var w := LeadLits(v);
    var m := |w|;
    FlatLead(v);
    if m >= |Prefix| {
      assert Flat(v)[..|Prefix|] == w[..|Prefix|];
    } else if m < |v| {
      var k := v[m].k;
      assert v[m..][1..] == v[m + 1..];
      assert Flat(v) == w + Placeholder(k) + Flat(v[m + 1..]);
      NoMatchBeforePlaceholder(w, k, Flat(v[m + 1..]));
    }
  }

  /** Restoring the text of a well-formed segment sequence expands each placeholder in place. */
  lemma {:induction false} FlatRestore(v: seq<Seg>, blocks: seq<string>)
    requires RunsFree(v) && RefsBelow(v, |blocks|)
    ensures Restore(Flat(v), blocks) == Denote(v, blocks)
  {
    if v != [] {
      FlatRestore(v[1..], blocks);
      match v[0]
      case Ref(k) =>
        MatchPlaceholder(k, Flat(v[1..]));
        assert (Placeholder(k) + Flat(v[1..]))[|Placeholder(k)|..] == Flat(v[1..]);
      case Lit(c) =>
        NoMatchAtLit(v);
    }
  }

  // ------------------------------------------------------------ passes on segments

  /** `FindClose` on segments: the closer must be two literal segments. */
  function FindCloseSegs(w: seq<Seg>, close: string): (r: Option<nat>)
    requires |close| == 2
    ensures r.Some? ==> r.value + 2 <= |w| && w[r.value] == Lit(close[0]) && w[r.value + 1] == Lit(close[1])
    decreases |w|
  {
    if |w| < 2 then None
    else if w[0] == Lit(close[0]) && w[1] == Lit(close[1]) then Some(0)
    else match FindCloseSegs(w[1..], close)
      case None => None
      case Some(j) => Some(j + 1)
  }

  /** The result of a pass on segments: the new segments and the captured segment runs. */
  datatype SegPass = SegPass(segs: seq<Seg>, caps: seq<seq<Seg>>)

  /** `Pass` on segments; a capture becomes one `Ref` segment. */
  function PassSegs(v: seq<Seg>, open: string, close: string, n: nat): (r: SegPass)
    requires |open| == 2 && |close| == 2
    decreases |v|
  {
    if |v| < 2 then SegPass(v, [])
    else if v[0] == Lit(open[0]) && v[1] == Lit(open[1]) && FindCloseSegs(v[2..], close).Some? then
      var j := FindCloseSegs(v[2..], close).value + 4;
      var rest := PassSegs(v[j..], open, close, n + 1);
      SegPass([Ref(n)] + rest.segs, [v[..j]] + rest.caps)
    else
      var rest := PassSegs(v[1..], open, close, n);
      SegPass([v[0]] + rest.segs, rest.caps)
  }

  function FlatPass(p: SegPass): Shielded {
    Shielded(Flat(p.segs), Flats(p.caps))
  }

  lemma FlatCons(g: Seg, v: seq<Seg>)
    ensures Flat([g] + v) == SegText(g) + Flat(v)
  {
    assert ([g] + v)[1..] == v;
  }

  lemma PlaceholderHead(k: nat)
    ensures Placeholder(k)[0] == '_'
  {
    assert Placeholder(k)[..|Prefix|] == Prefix;
  }

  /** Word characters never hold a closer, so a search passes over them. */
  lemma {:induction false} FindCloseWord(x: string, y: string, close: string)
    requires |close| == 2 && !IsWordChar(close[0])
    requires forall i :: 0 <= i < |x| ==> IsWordChar(x[i])
    ensures FindClose(x + y, close) == match FindClose(y, close)
      case None => None
      case Some(j) => Some(j + |x|)
  {
    if x == [] {
      assert x + y == y;
    } else {
      assert (x + y)[1..] == x[1..] + y;
      FindCloseWord(x[1..], y, close);
    }
  }

  function Shift(o: Option<nat>, d: nat): Option<nat> {
    match o
    case None => None
    case Some(j) => Some(j + d)
  }

  lemma FindCloseCons(c: char, t: string, close: string)
    requires |close| == 2
    ensures FindClose([c] + t, close) ==
      if t != [] && c == close[0] && t[0] == close[1] then Some(0) else Shift(FindClose(t, close), 1)
  {
    assert ([c] + t)[1..] == t;
  }

  /** The text of a segment sequence is the head segment's text, then the rest. */
  lemma FlatHead(w: seq<Seg>)
    requires w != []
    ensures Flat(w) == SegText(w[0]) + Flat(w[1..])
  {
  }

  /** A placeholder at the head is passed over whole. */
  lemma FindCloseRefHead(w: seq<Seg>, close: string)
    requires |close| == 2 && !IsWordChar(close[0]) && w != [] && w[0].Ref?
    ensures FindClose(Flat(w), close) == Shift(FindClose(Flat(w[1..]), close), |SegText(w[0])|)
  {
    FlatHead(w);
    FindClosePlaceholder(w[0].k, Flat(w[1..]), Flat(w), close);
  }

  lemma FindClosePlaceholder(k: nat, y: string, s: string, close: string)
    requires |close| == 2 && !IsWordChar(close[0]) && s == Placeholder(k) + y
    ensures FindClose(s, close) == Shift(FindClose(y, close), |Placeholder(k)|)
  {
    FindCloseWord(Placeholder(k), y, close);
  }

  /** The first text character of a segment sequence. */
  lemma FlatFirst(v: seq<Seg>)
    requires v != []
    ensures Flat(v) != [] && Flat(v)[0] == SegText(v[0])[0]
    ensures v[0].Ref? ==> Flat(v)[0] == '_'
  {
    FlatHead(v);
    if v[0].Ref? { PlaceholderHead(v[0].k); }
  }

  /** A literal at the head is one character of the search. */
  lemma FindCloseLitHead(w: seq<Seg>, close: string)
    requires |close| == 2 && !IsWordChar(close[1]) && w != [] && w[0].Lit?
    ensures FindClose(Flat(w), close) ==
      if |w| >= 2 && w[0] == Lit(close[0]) && w[1] == Lit(close[1]) then Some(0)
      else Shift(FindClose(Flat(w[1..]), close), 1)
  {
    var t := Flat(w[1..]);
    FlatHead(w);
    assert Flat(w) == [w[0].c] + t;
    FindCloseCons(w[0].c, t, close);
    if |w| >= 2 {
      FlatFirst(w[1..]);
    }
  }

  /** One step of the search, on the text of a segment sequence. */
  lemma FindCloseHead(w: seq<Seg>, close: string)
    requires |close| == 2 && !IsWordChar(close[0]) && !IsWordChar(close[1]) && w != []
    ensures FindClose(Flat(w), close) ==
      if |w| >= 2 && w[0] == Lit(close[0]) && w[1] == Lit(close[1]) then Some(0)
      else Shift(FindClose(Flat(w[1..]), close), |SegText(w[0])|)
  {
    if w[0].Ref? {
      FindCloseRefHead(w, close);
    } else {
      FindCloseLitHead(w, close);
    }
  }

  /** A search that does not find the closer at the head goes on past the head segment. */
  lemma FindCloseSkip(w: seq<Seg>, close: string, o: Option<nat>)
    requires |close| == 2 && !IsWordChar(close[0]) && !IsWordChar(close[1]) && w != []
    requires !(|w| >= 2 && w[0] == Lit(close[0]) && w[1] == Lit(close[1]))
    requires FindClose(Flat(w[1..]), close) == o
    ensures FindClose(Flat(w), close) == Shift(o, |SegText(w[0])|)
  {
    FindCloseHead(w, close);
  }

  lemma FlatTakeLength(w: seq<Seg>, m: nat)
    requires 1 <= m <= |w|
    ensures |Flat(w[..m])| == |SegText(w[0])| + |Flat(w[1..][..m - 1])|
  {
    assert w[..m][1..] == w[1..][..m - 1];
  }

  /** What the search on the text finds, given what the search on segments finds. */
  function CloseOffset(w: seq<Seg>, o: Option<nat>): Option<nat> {
    match o
    case None => None
    case Some(j) => if j <= |w| then Some(|Flat(w[..j])|) else None
  }

  lemma CloseOffsetShift(w: seq<Seg>, o: Option<nat>)
    requires w != [] && (o.Some? ==> o.value + 1 <= |w|)
    ensures Shift(CloseOffset(w[1..], o), |SegText(w[0])|) == CloseOffset(w, Shift(o, 1))
  {
    if o.Some? {
      FlatTakeLength(w, o.value + 1);
    }
  }

  lemma FindCloseStep(w: seq<Seg>, close: string)
    requires |close| == 2 && !IsWordChar(close[0]) && !IsWordChar(close[1]) && w != []
    requires FindClose(Flat(w[1..]), close) == CloseOffset(w[1..], FindCloseSegs(w[1..], close))
    ensures FindClose(Flat(w), close) == CloseOffset(w, FindCloseSegs(w, close))
  {
    if |w| >= 2 && w[0] == Lit(close[0]) && w[1] == Lit(close[1]) {
      FindCloseHit(w, close);
    } else {
      FindCloseMiss(w, close);
    }
  }

  /** The closer at the head: both searches find it at the start. */
  lemma FindCloseHit(w: seq<Seg>, close: string)
    requires |close| == 2 && !IsWordChar(close[0]) && !IsWordChar(close[1])
    requires |w| >= 2 && w[0] == Lit(close[0]) && w[1] == Lit(close[1])
    ensures FindClose(Flat(w), close) == CloseOffset(w, FindCloseSegs(w, close))
  {
    FindCloseHead(w, close);
    assert w[..0] == [];
  }

  /** No closer at the head: both searches move past the first segment. */
  lemma FindCloseMiss(w: seq<Seg>, close: string)
    requires |close| == 2 && !IsWordChar(close[0]) && !IsWordChar(close[1]) && w != []
    requires !(|w| >= 2 && w[0] == Lit(close[0]) && w[1] == Lit(close[1]))
    requires FindClose(Flat(w[1..]), close) == CloseOffset(w[1..], FindCloseSegs(w[1..], close))
    ensures FindClose(Flat(w), close) == CloseOffset(w, FindCloseSegs(w, close))
  {
    var o := FindCloseSegs(w[1..], close);
    assert FindCloseSegs(w, close) == Shift(o, 1);
    FindCloseSkip(w, close, CloseOffset(w[1..], o));
    CloseOffsetShift(w, o);
  }

  /** The search on the text finds the closer the search on segments finds, at the
      offset of the text before it. */
  lemma {:induction false} FindCloseCommutes(w: seq<Seg>, close: string)
    requires |close| == 2 && !IsWordChar(close[0]) && !IsWordChar(close[1])
    ensures FindClose(Flat(w), close) == CloseOffset(w, FindCloseSegs(w, close))
  {
    if w != [] {
      FindCloseCommutes(w[1..], close);
      FindCloseStep(w, close);
    }
  }

  /** Text without the opener's first character passes through a pass untouched. */
  lemma {:induction false} PassNoBrace(x: string, y: string, open: string, close: string, n: nat)
    requires |open| == 2 && |close| == 2
    requires forall i :: 0 <= i < |x| ==> x[i] != open[0]
    ensures Pass(x + y, open, close, n) == Shielded(x + Pass(y, open, close, n).text, Pass(y, open, close, n).blocks)
    decreases |x|
  {
    if x == [] {
      assert x + y == y;
    } else {
      PassNoBrace(x[1..], y, open, close, n);
      ConsSplit(x, y, Pass(y, open, close, n).text);
      PassNoBraceStep(x[0], x[1..], y, open, close, n);
    }
  }

  lemma ConsSplit(a: string, r: string, t: string)
    requires a != []
    ensures a + r == [a[0]] + (a[1..] + r) && a + t == [a[0]] + (a[1..] + t)
  {
  }

  /** One character other than the opener's first in front of text the pass copies. */
  lemma PassNoBraceStep(c: char, a: string, r: string, open: string, close: string, n: nat)
    requires |open| == 2 && |close| == 2 && c != open[0]
    requires Pass(a + r, open, close, n) == Shielded(a + Pass(r, open, close, n).text, Pass(r, open, close, n).blocks)
    ensures Pass([c] + (a + r), open, close, n)
      == Shielded([c] + (a + Pass(r, open, close, n).text), Pass(r, open, close, n).blocks)
  {
    PassSkipOne(c, a + r, open, close, n);
  }

  lemma FlatsCons(c: seq<Seg>, cs: seq<seq<Seg>>)
    ensures Flats([c] + cs) == [Flat(c)] + Flats(cs)
  {
    var l := Flats([c] + cs);
    var r := [Flat(c)] + Flats(cs);
    forall i | 0 <= i < |l|
      ensures l[i] == r[i]
    {
      if i > 0 {
        assert ([c] + cs)[i] == cs[i - 1];
      }
    }
  }

  /** The pass step over a leading placeholder. */
  lemma PassStepRef(v: seq<Seg>, open: string, close: string, n: nat)
    requires DelimiterPair(open, close) && v != [] && v[0].Ref?
    requires Pass(Flat(v[1..]), open, close, n) == FlatPass(PassSegs(v[1..], open, close, n))
    ensures Pass(Flat(v), open, close, n) == FlatPass(PassSegs(v, open, close, n))
  {
    var k := v[0].k;
    assert v == [v[0]] + v[1..];
    FlatCons(v[0], v[1..]);
    PlaceholderHead(k);
    PassNoBrace(Placeholder(k), Flat(v[1..]), open, close, n);
    if |v| >= 2 {
      FlatCons(v[0], PassSegs(v[1..], open, close, n).segs);
    } else {
      assert v[1..] == [];
    }
  }

  lemma {:induction false} FlatSplit(v: seq<Seg>, m: nat)
    requires m <= |v|
    ensures Flat(v) == Flat(v[..m]) + Flat(v[m..])
  {
    if m == 0 {
      assert v[m..] == v;
    } else {
      assert v[..m][1..] == v[1..][..m - 1];
      assert v[1..][m - 1..] == v[m..];
      FlatSplit(v[1..], m - 1);
    }
  }

  /** Two leading literal segments spell two characters. */
  lemma FlatTwoLits(v: seq<Seg>)
    requires |v| >= 2 && v[0].Lit? && v[1].Lit?
    ensures Flat(v) == [v[0].c, v[1].c] + Flat(v[2..])
  {
    FlatHead(v);
    FlatHead(v[1..]);
    assert v[1..][1..] == v[2..];
    TwoCons(v[0].c, v[1].c, Flat(v[2..]));
  }

  lemma TwoCons(a: char, b: char, r: string)
    ensures [a] + ([b] + r) == [a, b] + r
  {
  }

  /** The text of a captured run: opener, the text up to the closer, closer. */
  lemma FlatOpenerLength(v: seq<Seg>, j: nat)
    requires j + 4 <= |v| && v[0].Lit? && v[1].Lit? && v[j + 2].Lit? && v[j + 3].Lit?
    ensures Flat(v) == [v[0].c, v[1].c] + Flat(v[2..])
    ensures |Flat(v[..j + 4])| == |Flat(v[2..][..j])| + 4
  {
    FlatTwoLits(v);
    FlatSplit(v[2..], j);
    assert v[2..][j..] == v[j + 2..];
    FlatTwoLits(v[j + 2..]);
    assert v[j + 2..][2..] == v[j + 4..];
    FlatSplit(v, j + 4);
  }

  /** The pass step over a captured span. */
  lemma PassStepCapture(v: seq<Seg>, open: string, close: string, n: nat)
    requires DelimiterPair(open, close) && |v| >= 2
    requires v[0] == Lit(open[0]) && v[1] == Lit(open[1]) && FindCloseSegs(v[2..], close).Some?
    requires Pass(Flat(v[FindCloseSegs(v[2..], close).value + 4..]), open, close, n + 1)
      == FlatPass(PassSegs(v[FindCloseSegs(v[2..], close).value + 4..], open, close, n + 1))
    ensures Pass(Flat(v), open, close, n) == FlatPass(PassSegs(v, open, close, n))
  {
    var j := FindCloseSegs(v[2..], close).value;
    var f := Flat(v);
    FlatOpenerLength(v, j);
    assert f[2..] == Flat(v[2..]);
    FindCloseCommutes(v[2..], close);
    var cut := v[..j + 4];
    FlatSplit(v, j + 4);
    assert f[..|Flat(cut)|] == Flat(cut);
    assert f[|Flat(cut)|..] == Flat(v[j + 4..]);
    PassCaptureAt(f, open, close, n, |Flat(cut)|);
    var rest := PassSegs(v[j + 4..], open, close, n + 1);
    FlatCons(Ref(n), rest.segs);
    FlatsCons(cut, rest.caps);
  }

  /** A pass that finds a directive of length `k` at the head captures it. */
  lemma PassCaptureAt(s: string, open: string, close: string, n: nat, k: nat)
    requires |open| == 2 && |close| == 2 && 4 <= k <= |s|
    requires s[0] == open[0] && s[1] == open[1] && FindClose(s[2..], close) == Some(k - 4)
    ensures Pass(s, open, close, n) ==
      Shielded(Placeholder(n) + Pass(s[k..], open, close, n + 1).text,
               [s[..k]] + Pass(s[k..], open, close, n + 1).blocks)
  {
  }

  /** The pass step over a literal that does not start a capture. */
  lemma PassStepLit(v: seq<Seg>, open: string, close: string, n: nat)
    requires DelimiterPair(open, close) && |v| >= 2 && v[0].Lit?
    requires !(v[0] == Lit(open[0]) && v[1] == Lit(open[1]) && FindCloseSegs(v[2..], close).Some?)
    requires Pass(Flat(v[1..]), open, close, n) == FlatPass(PassSegs(v[1..], open, close, n))
    ensures Pass(Flat(v), open, close, n) == FlatPass(PassSegs(v, open, close, n))
  {
    var f := Flat(v);
    if v[1].Ref? { PlaceholderHead(v[1].k); }
    assert f[1] == SegText(v[1])[0];
    assert f[1..] == Flat(v[1..]);
    if v[0] == Lit(open[0]) && v[1] == Lit(open[1]) {
      FlatTwoLits(v);
      assert f[2..] == Flat(v[2..]);
      FindCloseCommutes(v[2..], close);
    }
    FlatCons(v[0], PassSegs(v[1..], open, close, n).segs);
  }

  /** The pass over no segment or one literal. */
  lemma PassCommutesShort(v: seq<Seg>, open: string, close: string, n: nat)
    requires DelimiterPair(open, close) && |v| < 2 && (v != [] ==> v[0].Lit?)
    ensures Pass(Flat(v), open, close, n) == FlatPass(PassSegs(v, open, close, n))
  {
  }

  /** A pass on the text of a segment sequence is the text of the pass on the segments. */
  lemma {:induction false} PassCommutes(v: seq<Seg>, open: string, close: string, n: nat)
    requires DelimiterPair(open, close)
    ensures Pass(Flat(v), open, close, n) == FlatPass(PassSegs(v, open, close, n))
    decreases |v|, 1
  {
    if v != [] && v[0].Ref? {
      PassCommutesRef(v, open, close, n);
    } else if |v| < 2 {
      PassCommutesShort(v, open, close, n);
    } else if v[0] == Lit(open[0]) && v[1] == Lit(open[1]) && FindCloseSegs(v[2..], close).Some? {
      PassCommutesCapture(v, open, close, n);
    } else {
      PassCommutesLit(v, open, close, n);
    }
  }

  lemma {:induction false} PassCommutesRef(v: seq<Seg>, open: string, close: string, n: nat)
    requires DelimiterPair(open, close) && v != [] && v[0].Ref?
    ensures Pass(Flat(v), open, close, n) == FlatPass(PassSegs(v, open, close, n))
    decreases |v|, 0
  {
    PassCommutes(v[1..], open, close, n);
    PassStepRef(v, open, close, n);
  }

  lemma {:induction false} PassCommutesCapture(v: seq<Seg>, open: string, close: string, n: nat)
    requires DelimiterPair(open, close) && |v| >= 2
    requires v[0] == Lit(open[0]) && v[1] == Lit(open[1]) && FindCloseSegs(v[2..], close).Some?
    ensures Pass(Flat(v), open, close, n) == FlatPass(PassSegs(v, open, close, n))
    decreases |v|, 0
  {
    PassCommutes(v[FindCloseSegs(v[2..], close).value + 4..], open, close, n + 1);
    PassStepCapture(v, open, close, n);
  }

  lemma {:induction false} PassCommutesLit(v: seq<Seg>, open: string, close: string, n: nat)
    requires DelimiterPair(open, close) && |v| >= 2 && v[0].Lit?
    requires !(v[0] == Lit(open[0]) && v[1] == Lit(open[1]) && FindCloseSegs(v[2..], close).Some?)
    ensures Pass(Flat(v), open, close, n) == FlatPass(PassSegs(v, open, close, n))
    decreases |v|, 0
  {
    PassCommutes(v[1..], open, close, n);
    PassStepLit(v, open, close, n);
  }

  // ------------------------------------------------------------ what a pass keeps

  lemma NotStartsWithPrefixOf(a: string, b: string, p: string)
    requires IsPrefix(a, b) && !StartsWith(b, p)
    ensures !StartsWith(a, p)
  {
    if |p| <= |a| {
      assert a[..|p|] == b[..|p|];
    }
  }

  lemma LeadLitsCons(g: Seg, v: seq<Seg>)
    ensures LeadLits([g] + v) == if g.Lit? then [g.c] + LeadLits(v) else []
  {
    assert ([g] + v)[1..] == v;
  }

  /** A pass only shortens the leading literal run. */
  lemma {:induction false} LeadLitsPass(v: seq<Seg>, open: string, close: string, n: nat)
    requires |open| == 2 && |close| == 2
    ensures IsPrefix(LeadLits(PassSegs(v, open, close, n).segs), LeadLits(v))
    decreases |v|
  {
    if |v| < 2 {
    } else if v[0] == Lit(open[0]) && v[1] == Lit(open[1]) && FindCloseSegs(v[2..], close).Some? {
      var j := FindCloseSegs(v[2..], close).value + 4;
      LeadLitsCons(Ref(n), PassSegs(v[j..], open, close, n + 1).segs);
    } else {
      var rest := PassSegs(v[1..], open, close, n);
      LeadLitsCons(v[0], rest.segs);
      if v[0].Lit? {
        LeadLitsPass(v[1..], open, close, n);
      }
    }
  }

  lemma RunsFreeCons(g: Seg, v: seq<Seg>)
    requires g.Lit? ==> !StartsWith(LeadLits([g] + v), Prefix)
    requires RunsFree(v)
    ensures RunsFree([g] + v)
  {
    assert ([g] + v)[1..] == v;
  }

  /** A pass never creates a literal run that spells the prefix. */
  lemma {:induction false} RunsFreePass(v: seq<Seg>, open: string, close: string, n: nat)
    requires |open| == 2 && |close| == 2 && RunsFree(v)
    ensures RunsFree(PassSegs(v, open, close, n).segs)
    decreases |v|
  {
    if |v| < 2 {
    } else if v[0] == Lit(open[0]) && v[1] == Lit(open[1]) && FindCloseSegs(v[2..], close).Some? {
      var j := FindCloseSegs(v[2..], close).value + 4;
      RunsFreeSuffix(v, j);
      RunsFreePass(v[j..], open, close, n + 1);
      RunsFreeCons(Ref(n), PassSegs(v[j..], open, close, n + 1).segs);
    } else {
      RunsFreePass(v[1..], open, close, n);
      if v[0].Lit? {
        LeadLitsPass(v, open, close, n);
        NotStartsWithPrefixOf(LeadLits(PassSegs(v, open, close, n).segs), LeadLits(v), Prefix);
      }
      RunsFreeCons(v[0], PassSegs(v[1..], open, close, n).segs);
    }
  }

  /** Placeholders left by a pass index entries of the table as it stands after the pass. */
  lemma {:induction false} RefsBelowPass(v: seq<Seg>, open: string, close: string, n: nat)
    requires |open| == 2 && |close| == 2 && RefsBelow(v, n)
    ensures RefsBelow(PassSegs(v, open, close, n).segs, n + |PassSegs(v, open, close, n).caps|)
    decreases |v|
  {
    if |v| < 2 {
    } else if v[0] == Lit(open[0]) && v[1] == Lit(open[1]) && FindCloseSegs(v[2..], close).Some? {
      var j := FindCloseSegs(v[2..], close).value + 4;
      RefsBelowDrop(v, j, n, n + 1);
      RefsBelowPass(v[j..], open, close, n + 1);
      PassSegsCapture(v, open, close, n);
      var rest := PassSegs(v[j..], open, close, n + 1);
      RefsBelowCons(Ref(n), rest.segs, n + 1 + |rest.caps|);
    } else {
      RefsBelowDrop(v, 1, n, n);
      RefsBelowPass(v[1..], open, close, n);
      PassSegsSkip(v, open, close, n);
      var rest := PassSegs(v[1..], open, close, n);
      RefsBelowCons(v[0], rest.segs, n + |rest.caps|);
    }
  }

  lemma RefsBelowDrop(v: seq<Seg>, j: nat, n: nat, m: nat)
    requires j <= |v| && RefsBelow(v, n) && n <= m
    ensures RefsBelow(v[j..], m)
  {
    forall i | 0 <= i < |v| - j && v[j..][i].Ref?
      ensures v[j..][i].k < m
    {
      assert v[j..][i] == v[j + i];
    }
  }

  lemma RefsBelowCons(g: Seg, v: seq<Seg>, m: nat)
    requires RefsBelow(v, m) && (g.Ref? ==> g.k < m)
    ensures RefsBelow([g] + v, m)
  {
    forall i | 0 <= i < |v| + 1 && ([g] + v)[i].Ref?
      ensures ([g] + v)[i].k < m
    {
      if i > 0 {
        assert ([g] + v)[i] == v[i - 1];
      }
    }
  }

  lemma PassSegsSkip(v: seq<Seg>, open: string, close: string, n: nat)
    requires |open| == 2 && |close| == 2 && |v| >= 2
    requires !(v[0] == Lit(open[0]) && v[1] == Lit(open[1]) && FindCloseSegs(v[2..], close).Some?)
    ensures
      var rest := PassSegs(v[1..], open, close, n);
      PassSegs(v, open, close, n) == SegPass([v[0]] + rest.segs, rest.caps)
  {
  }

  lemma DenoteCons(g: Seg, v: seq<Seg>, blocks: seq<string>)
    ensures Denote([g] + v, blocks) == DenoteSeg(g, blocks) + Denote(v, blocks)
  {
    assert ([g] + v)[1..] == v;
  }

  lemma PassSegsCapture(v: seq<Seg>, open: string, close: string, n: nat)
    requires |open| == 2 && |close| == 2 && |v| >= 2
    requires v[0] == Lit(open[0]) && v[1] == Lit(open[1]) && FindCloseSegs(v[2..], close).Some?
    ensures
      var j := FindCloseSegs(v[2..], close).value + 4;
      var rest := PassSegs(v[j..], open, close, n + 1);
      PassSegs(v, open, close, n) == SegPass([Ref(n)] + rest.segs, [v[..j]] + rest.caps)
  {
  }

  /** The pass step over a captured span keeps what the segments stand for. */
  lemma DenotePassCapture(v: seq<Seg>, blocks: seq<string>, n: nat, open: string, close: string)
    requires |open| == 2 && |close| == 2 && n == |blocks| && RunsFree(v) && RefsBelow(v, |blocks|) && |v| >= 2
    requires v[0] == Lit(open[0]) && v[1] == Lit(open[1]) && FindCloseSegs(v[2..], close).Some?
    ensures Denote(PassSegs(v, open, close, n).segs, blocks + Flats(PassSegs(v, open, close, n).caps))
      == Denote(v, blocks)
    decreases |v|, 0
  {
    var j := FindCloseSegs(v[2..], close).value + 4;
    var cut := v[..j];
    var bigger := blocks + [Flat(cut)];
    var rest := PassSegs(v[j..], open, close, n + 1);
    PassSegsCapture(v, open, close, n);
    RunsFreeSuffix(v, j);
    RefsBelowSuffix(v, n, j, n + 1);
    DenotePass(v[j..], bigger, n + 1, open, close);
    RunsFreePrefix(v, j);
    RefsBelowPrefix(v, n, j);
    DenoteCaptureHead(cut, rest.segs, rest.caps, blocks);
    RefsBelowSuffix(v, n, j, n);
    DenoteExtend(v[j..], blocks, [Flat(cut)]);
    SplitAt(v, j);
    DenoteAppend(cut, v[j..], blocks);
  }

  /** The segments after a capture, expanded with the table that holds it. */
  lemma DenoteCaptureHead(cut: seq<Seg>, segs: seq<Seg>, caps: seq<seq<Seg>>, blocks: seq<string>)
    requires RunsFree(cut) && RefsBelow(cut, |blocks|)
    ensures Denote([Ref(|blocks|)] + segs, blocks + Flats([cut] + caps))
      == Denote(cut, blocks) + Denote(segs, blocks + [Flat(cut)] + Flats(caps))
  {
    var all := blocks + Flats([cut] + caps);
    FlatsCons(cut, caps);
    ExpandCapture(cut, blocks, Flats(caps));
    TableAfterCapture(blocks, Flat(cut), Flats(caps));
    DenoteCons(Ref(|blocks|), segs, all);
  }

  /** The placeholder of a capture expands to what the captured segments stand for. */
  lemma ExpandCapture(cut: seq<Seg>, blocks: seq<string>, later: seq<string>)
    requires RunsFree(cut) && RefsBelow(cut, |blocks|)
    ensures Expand(|blocks|, blocks + ([Flat(cut)] + later)) == Denote(cut, blocks)
  {
    TableAfterCapture(blocks, Flat(cut), later);
    FlatRestore(cut, blocks);
  }

  lemma RefsBelowPrefix(v: seq<Seg>, n: nat, j: nat)
    requires RefsBelow(v, n) && j <= |v|
    ensures RefsBelow(v[..j], n)
  {
  }

  lemma SplitAt<T>(v: seq<T>, j: nat)
    requires j <= |v|
    ensures v == v[..j] + v[j..]
  {
  }

  /** The table after a capture: the entries before it, the capture, the later ones. */
  lemma TableAfterCapture(blocks: seq<string>, b: string, later: seq<string>)
    ensures blocks + ([b] + later) == blocks + [b] + later
    ensures (blocks + ([b] + later))[|blocks|] == b
    ensures (blocks + ([b] + later))[..|blocks|] == blocks
  {
  }

  lemma RefsBelowSuffix(v: seq<Seg>, n: nat, j: nat, m: nat)
    requires RefsBelow(v, n) && j <= |v| && n <= m
    ensures RefsBelow(v[j..], m)
  {
    assert forall i :: 0 <= i < |v| - j ==> v[j..][i] == v[i + j];
  }

  /** The pass step over a segment that does not start a capture. */
  lemma DenotePassSkip(v: seq<Seg>, blocks: seq<string>, n: nat, open: string, close: string)
    requires |open| == 2 && |close| == 2 && n == |blocks| && RunsFree(v) && RefsBelow(v, |blocks|) && |v| >= 2
    requires !(v[0] == Lit(open[0]) && v[1] == Lit(open[1]) && FindCloseSegs(v[2..], close).Some?)
    ensures Denote(PassSegs(v, open, close, n).segs, blocks + Flats(PassSegs(v, open, close, n).caps))
      == Denote(v, blocks)
    decreases |v|, 0
  {
    RunsFreeSuffix(v, 1);
    RefsBelowSuffix(v, n, 1, n);
    DenotePass(v[1..], blocks, n, open, close);
    var rest := PassSegs(v[1..], open, close, n);
    assert PassSegs(v, open, close, n) == SegPass([v[0]] + rest.segs, rest.caps);
    DenoteCons(v[0], rest.segs, blocks + Flats(rest.caps));
    assert Denote(v, blocks) == DenoteSeg(v[0], blocks) + Denote(v[1..], blocks);
    if v[0].Ref? {
      ExpandExtend(v[0].k, blocks, Flats(rest.caps));
    }
  }

  /** Expanding the segments a pass leaves, with the table grown by its captures,
      gives what the segments before the pass stood for. */
  lemma {:induction false} DenotePass(v: seq<Seg>, blocks: seq<string>, n: nat, open: string, close: string)
    requires |open| == 2 && |close| == 2 && n == |blocks| && RunsFree(v) && RefsBelow(v, |blocks|)
    ensures Denote(PassSegs(v, open, close, n).segs, blocks + Flats(PassSegs(v, open, close, n).caps))
      == Denote(v, blocks)
    decreases |v|, 1
  {
    if |v| < 2 {
      assert blocks + Flats([]) == blocks;
    } else if v[0] == Lit(open[0]) && v[1] == Lit(open[1]) && FindCloseSegs(v[2..], close).Some? {
      DenotePassCapture(v, blocks, n, open, close);
    } else {
      DenotePassSkip(v, blocks, n, open, close);
    }
  }

  // ------------------------------------------------------------ the round trip

  /** One pass of the shielding, seen on segments: what it keeps. */
  lemma PassStep(v: seq<Seg>, blocks: seq<string>, s: string, open: string, close: string)
    requires DelimiterPair(open, close)
    requires RunsFree(v) && RefsBelow(v, |blocks|) && Denote(v, blocks) == s
    ensures
      var r := PassSegs(v, open, close, |blocks|);
      && Pass(Flat(v), open, close, |blocks|) == Shielded(Flat(r.segs), Flats(r.caps))
      && RunsFree(r.segs) && RefsBelow(r.segs, |blocks + Flats(r.caps)|)
      && Denote(r.segs, blocks + Flats(r.caps)) == s
  {
    PassCommutes(v, open, close, |blocks|);
    RunsFreePass(v, open, close, |blocks|);
    RefsBelowPass(v, open, close, |blocks|);
    DenotePass(v, blocks, |blocks|, open, close);
  }

  /** The comment pass over `t`, with the table it extends. */
  function AfterComments(t: string, blocks: seq<string>): Shielded {
    var c := Pass(t, CommentOpen, CommentClose, |blocks|);
    Shielded(c.text, blocks + c.blocks)
  }

  /** The expression and comment passes over `t`, with the table they extend. */
  function AfterExpressions(t: string, blocks: seq<string>): Shielded {
    var b := Pass(t, ExpressionOpen, ExpressionClose, |blocks|);
    AfterComments(b.text, blocks + b.blocks)
  }

  /** The shielding as its three passes. */
  lemma ShieldPasses(s: string)
    ensures Shield(s) == AfterExpressions(Pass(s, StatementOpen, StatementClose, 0).text,
                                          Pass(s, StatementOpen, StatementClose, 0).blocks)
  {
    var a := Pass(s, StatementOpen, StatementClose, 0);
    var b := Pass(a.text, ExpressionOpen, ExpressionClose, |a.blocks|);
    assert |a.blocks + b.blocks| == |a.blocks| + |b.blocks|;
  }

  /** The comment pass followed by the restoration, on the text `t` of well-formed segments. */
  lemma RoundTripLast(v: seq<Seg>, t: string, blocks: seq<string>, s: string)
    requires t == Flat(v)
    requires RunsFree(v) && RefsBelow(v, |blocks|) && Denote(v, blocks) == s
    ensures Restore(AfterComments(t, blocks).text, AfterComments(t, blocks).blocks) == s
  {
    DelimiterPairs();
    PassStep(v, blocks, s, CommentOpen, CommentClose);
    var r := PassSegs(v, CommentOpen, CommentClose, |blocks|);
    FlatRestore(r.segs, blocks + Flats(r.caps));
  }

  /** The expression and comment passes followed by the restoration. */
  lemma RoundTripLastTwo(v: seq<Seg>, t: string, blocks: seq<string>, s: string)
    requires t == Flat(v)
    requires RunsFree(v) && RefsBelow(v, |blocks|) && Denote(v, blocks) == s
    ensures Restore(AfterExpressions(t, blocks).text, AfterExpressions(t, blocks).blocks) == s
  {
    DelimiterPairs();
    PassStep(v, blocks, s, ExpressionOpen, ExpressionClose);
    var r := PassSegs(v, ExpressionOpen, ExpressionClose, |blocks|);
    var b := Pass(t, ExpressionOpen, ExpressionClose, |blocks|);
    assert b.text == Flat(r.segs);
    assert b.blocks == Flats(r.caps);
    RoundTripLast(r.segs, b.text, blocks + b.blocks, s);
  }

  /**
   * Shielding followed by the intended restoration gives back the original
   * text, for every text that does not itself spell the placeholder prefix.
   */
  lemma ShieldRoundTrip(s: string)
    requires !Contains(s, Prefix)
    ensures Restore(Shield(s).text, Shield(s).blocks) == s
  {
    var v := Lits(s);
    FlatLits(s);
    RunsFreeLits(s);
    DenoteLits(s, []);
    DelimiterPairs();
    PassStep(v, [], s, StatementOpen, StatementClose);
    var r := PassSegs(v, StatementOpen, StatementClose, 0);
    var a := Pass(s, StatementOpen, StatementClose, 0);
    assert a.text == Flat(r.segs);
    assert a.blocks == Flats(r.caps);
    assert [] + Flats(r.caps) == Flats(r.caps);
    RoundTripLastTwo(r.segs, a.text, a.blocks, s);
    ShieldPasses(s);
  }

  // ------------------------------------------------------------ nested directives

  /** A text without the closer's first character holds no closer. */
  lemma {:induction false} FindCloseAbsent(u: string, close: string)
    requires |close| == 2
    requires forall i :: 0 <= i < |u| ==> u[i] != close[0]
    ensures FindClose(u, close).None?
    decreases |u|
  {
    if |u| >= 2 {
      FindCloseAbsent(u[1..], close);
    }
  }

  /** `{{ w }}` wrapped in a comment, for a run `w` of word characters. */
  function CommentedExpression(w: string): string {
    CommentOpen + (ExpressionOpen + w + ExpressionClose) + CommentClose
  }

  /** What the expression pass leaves of it: the comment around the placeholder. */
  function CommentedPlaceholder(): string {
    CommentOpen + Placeholder(0) + CommentClose
  }

  lemma NestedStatements(w: string)
    requires forall i :: 0 <= i < |w| ==> IsWordChar(w[i])
    ensures Pass(CommentedExpression(w), StatementOpen, StatementClose, 0) == Shielded(CommentedExpression(w), [])
  {
    var s := CommentedExpression(w);
    assert forall i :: 0 <= i < |s| ==> s[i] != '%' by {
      forall i | 0 <= i < |s| ensures s[i] != '%' {
        if 4 <= i < 4 + |w| { assert s[i] == w[i - 4]; }
      }
    }
    FindCloseAbsent(s, StatementClose);
    PassWithoutCloser(s, StatementOpen, StatementClose, 0);
  }

  /** A directive of word characters at the head of the text becomes the next placeholder. */
  lemma PassCaptureHead(x: string, y: string, open: string, close: string, n: nat)
    requires DelimiterPair(open, close)
    requires forall i :: 0 <= i < |x| ==> IsWordChar(x[i])
    ensures Pass(open + x + close + y, open, close, n)
      == Shielded(Placeholder(n) + Pass(y, open, close, n + 1).text,
                  [open + x + close] + Pass(y, open, close, n + 1).blocks)
  {
    var s := open + x + close + y;
    assert s[2..] == x + (close + y);
    assert FindClose(close + y, close) == Some(0);
    FindCloseWord(x, close + y, close);
    assert s[..|x| + 4] == open + x + close;
    assert s[|x| + 4..] == y;
  }

  /** Two leading characters that start no opener stay as they are. */
  lemma PassSkipTwo(a: string, y: string, open: string, close: string, n: nat)
    requires |open| == 2 && |close| == 2 && |a| == 2
    requires !(a[0] == open[0] && a[1] == open[1]) && a[1] != open[0]
    ensures Pass(a + y, open, close, n)
      == Shielded(a + Pass(y, open, close, n).text, Pass(y, open, close, n).blocks)
  {
    var t := Pass(y, open, close, n).text;
    assert a + y == [a[0]] + ([a[1]] + y);
    PassSkipOne(a[1], y, open, close, n);
    PassSkipOne(a[0], [a[1]] + y, open, close, n);
    assert [a[0]] + ([a[1]] + t) == a + t;
  }

  /** A leading character that starts no opener stays as it is. */
  lemma PassSkipOne(c: char, y: string, open: string, close: string, n: nat)
    requires |open| == 2 && |close| == 2
    requires y != [] ==> !(c == open[0] && y[0] == open[1])
    ensures Pass([c] + y, open, close, n)
      == Shielded([c] + Pass(y, open, close, n).text, Pass(y, open, close, n).blocks)
  {
    assert ([c] + y)[1..] == y;
  }

  lemma NestedExpressions(w: string)
    requires forall i :: 0 <= i < |w| ==> IsWordChar(w[i])
    ensures Pass(CommentedExpression(w), ExpressionOpen, ExpressionClose, 0)
      == Shielded(CommentedPlaceholder(), [ExpressionOpen + w + ExpressionClose])
  {
    var e := ExpressionOpen + w + ExpressionClose;
    assert CommentedExpression(w) == CommentOpen + (ExpressionOpen + w + ExpressionClose + CommentClose);
    PassSkipTwo(CommentOpen, ExpressionOpen + w + ExpressionClose + CommentClose, ExpressionOpen, ExpressionClose, 0);
    DelimiterPairs();
    PassCaptureHead(w, CommentClose, ExpressionOpen, ExpressionClose, 0);
    PassWithoutOpener(CommentClose, ExpressionOpen, ExpressionClose, 1);
    assert CommentOpen + (Placeholder(0) + CommentClose) == CommentedPlaceholder();
    assert [e] + [] == [e];
  }

  lemma NestedComments()
    ensures Pass(CommentedPlaceholder(), CommentOpen, CommentClose, 1)
      == Shielded(Placeholder(1), [CommentedPlaceholder()])
  {
    DelimiterPairs();
    PassCaptureHead(Placeholder(0), [], CommentOpen, CommentClose, 1);
    assert CommentOpen + Placeholder(0) + CommentClose + [] == CommentedPlaceholder();
    assert Placeholder(1) + [] == Placeholder(1);
  }

  /** A comment wrapping an expression: the expression pass captures the inner
      span first, so the comment's table entry holds the inner span's placeholder. */
  lemma NestedShield(w: string)
    requires forall i :: 0 <= i < |w| ==> IsWordChar(w[i])
    ensures Shield(CommentedExpression(w))
      == Shielded(Placeholder(1), [ExpressionOpen + w + ExpressionClose, CommentedPlaceholder()])
  {
    var s := CommentedExpression(w);
    var e := ExpressionOpen + w + ExpressionClose;
    NestedStatements(w);
    NestedExpressions(w);
    NestedComments();
    ShieldSteps(s, s, [], 0, CommentedPlaceholder(), [e], 1, Placeholder(1), [CommentedPlaceholder()]);
    TwoEntries(e, CommentedPlaceholder());
  }

  /** The table after the three passes of `NestedShield`. */
  lemma TwoEntries(x: string, y: string)
    ensures [] + [x] + [y] == [x, y]
  {
  }

  /** The single-pass restoration as written gives back the comment with the
      placeholder of the expression still in it, not the input. */
  lemma NestedRestoreFlat(w: string)
    requires forall i :: 0 <= i < |w| ==> IsWordChar(w[i])
    ensures RestoreFlat(Shield(CommentedExpression(w)).text, Shield(CommentedExpression(w)).blocks)
      == CommentedPlaceholder()
    ensures CommentedPlaceholder() != CommentedExpression(w)
  {
    NestedShield(w);
    var b := [ExpressionOpen + w + ExpressionClose, CommentedPlaceholder()];
    MatchPlaceholder(1, []);
    assert Placeholder(1) + [] == Placeholder(1);
    assert Placeholder(1)[|Placeholder(1)|..] == [];
    assert CommentedPlaceholder()[2] == '_' by { PlaceholderHead(0); }
  }

  /** The restoration as intended gives the input back. */
  lemma NestedRestore(w: string)
    requires forall i :: 0 <= i < |w| ==> IsWordChar(w[i]) && w[i] != '_'
    ensures Restore(Shield(CommentedExpression(w)).text, Shield(CommentedExpression(w)).blocks)
      == CommentedExpression(w)
  {
    var s := CommentedExpression(w);
    assert !Contains(s, Prefix) by {
      assert forall i :: 0 <= i < |s| ==> s[i] != '_' by {
        forall i | 0 <= i < |s| ensures s[i] != '_' {
          if 4 <= i < 4 + |w| { assert s[i] == w[i - 4]; }
        }
      }
      NoUnderscore(s);
    }
    ShieldRoundTrip(s);
  }

  lemma {:induction false} NoUnderscore(s: string)
    requires forall i :: 0 <= i < |s| ==> s[i] != '_'
    ensures !Contains(s, Prefix)
    decreases |s|
  {
    if s != [] {
      NoUnderscore(s[1..]);
      if |Prefix| <= |s| {
        assert s[..|Prefix|][0] != Prefix[0];
      }
    }
  }
}
