/** The ways to write text that is not a pattern: an escape, quotes, square brackets, and a
    brace behind a dollar sign. */
module BraceLiterals {
  import opened Prelude
  import opened BraceAst
  import opened BraceParser
  import opened BraceRoundTrip
  import opened BracePattern
  import opened BraceExpand
  import opened BraceMeaning
  import opened BraceRegex

  /** The parser takes `s` for nothing but the text `t`. */
  predicate ParsesToText(s: string, t: string) {
    Tree(Run(Initial(), s, 0)).nodes == [BOS, Leaf(Kind.Text, t, false, false), EOS]
  }

  lemma {:induction false} TextAlone(t: string, brackets: int)
    ensures Tree(PushText(Initial(), t).(brackets := brackets)).nodes
            == [BOS, Leaf(Kind.Text, t, false, false), EOS]
  {
    var st := Initial();
    assert LastLeaf([BOS]) == Some(BOS) && PrevKind(st) == Bos;
    var r := PushText(st, t);
    assert st.stack[..0] == [] && [BOS] + [Leaf(Kind.Text, t, false, false)] == [BOS, Leaf(Kind.Text, t, false, false)];
    assert r.stack == [st.stack[0].(nodes := [BOS, Leaf(Kind.Text, t, false, false)])];
  }

  /** A backslash makes any character text. */
  lemma {:induction false} Escaped(c: char)
    ensures ParsesToText(['\\', c], [c])
  {
    hide Tree, PushText;
    var s := ['\\', c];
    TextAlone([c], 0);
    assert Run(Initial(), s, 0) == Run(PushText(Initial(), [c]), s, 2) == PushText(Initial(), [c]);
    UnchangedBrackets([c]);
  }

  lemma UnchangedBrackets(t: string)
    ensures PushText(Initial(), t) == PushText(Initial(), t).(brackets := 0)
  {
  }

  lemma {:induction false} QuotedScans(q: char, t: string, i: nat, v: string)
    requires i <= |t| && forall k :: 0 <= k < |t| ==> t[k] != q && t[k] != '\\'
    requires q != '\\'
    ensures ScanQuote([q] + t + [q], i + 1, q, v) == (v + t[i..], |t| + 2)
    decreases |t| - i
  {
    var s := [q] + t + [q];
    if i < |t| {
      assert s[i + 1] == t[i];
      QuotedScans(q, t, i + 1, v + [t[i]]);
      assert v + [t[i]] + t[i + 1..] == v + t[i..];
    } else {
      assert s[i + 1] == q && v + t[i..] == v;
    }
  }

  /** Text in quotes of any of the three kinds is text, without the quotes, whatever braces,
      commas or dots it holds. */
  lemma {:induction false} Quoted(q: char, t: string)
    requires q in {'"', '\'', '`'} && forall k :: 0 <= k < |t| ==> t[k] != q && t[k] != '\\'
    ensures ParsesToText([q] + t + [q], t)
  {
    hide Tree, PushText, ScanQuote;
    var s := [q] + t + [q];
    QuotedScans(q, t, 0, "");
    assert "" + t[0..] == t && s[0] == q;
    TextAlone(t, 0);
    UnchangedBrackets(t);
    assert Run(PushText(Initial(), t), s, |s|) == PushText(Initial(), t);
  }

  /** From nesting `d` the brackets of `t` come back to 1 at its end, and never to 0. */
  predicate Nests(t: string, d: nat) {
    if t == "" then d == 1
    else if t[0] == '[' then Nests(t[1..], d + 1)
    else if t[0] == ']' then d > 1 && Nests(t[1..], d - 1)
    else t[0] != '\\' && Nests(t[1..], d)
  }

  lemma {:induction false} BracketScans(t: string, i: nat, d: nat, v: string)
    requires i <= |t| && d > 0 && Nests(t[i..], d)
    ensures ScanBrackets("[" + t + "]", i + 1, d, v) == (v + t[i..] + "]", 0, |t| + 2)
    decreases |t| - i
  {
    var s := "[" + t + "]";
    if i < |t| {
      assert s[i + 1] == t[i] == t[i..][0] && t[i..][1..] == t[i + 1..];
      var deeper := if t[i] == '[' then d + 1 else if t[i] == ']' then d - 1 else d;
      BracketScans(t, i + 1, deeper, v + [t[i]]);
      assert v + [t[i]] + t[i + 1..] == v + t[i..];
    } else {
      assert s[i + 1] == ']' && t[i..] == "";
      assert v + t[i..] + "]" == v + "]";
    }
  }

  /** Text in square brackets is text, with the brackets, to the one that balances the first. */
  lemma {:induction false} Bracketed(t: string)
    requires Nests(t, 1)
    ensures ParsesToText("[" + t + "]", "[" + t + "]")
  {
    hide Tree, PushText, ScanBrackets;
    var s := "[" + t + "]";
    assert t[0..] == t;
    BracketScans(t, 0, 1, "[");
    assert "[" + t[0..] + "]" == s && s[0] == '[';
    TextAlone(s, 0);
    var r := PushText(Initial(), s).(brackets := 0);
    assert Run(r, s, |s|) == r;
  }

  /** A lone closing bracket is escaped. */
  lemma {:induction false} LoneBracket()
    ensures ParsesToText("]", "\\]")
  {
    hide Tree, PushText;
    TextAlone("\\]", 0);
    UnchangedBrackets("\\]");
    assert Run(PushText(Initial(), "\\]"), "]", 1) == PushText(Initial(), "\\]");
  }

  /** What is only text expands to itself. */
  lemma {:induction false} TextExpands(s: string, t: string)
    requires ParsesToText(s, t) && t != ""
    ensures Expansion(Tree(Run(Initial(), s, 0))) == [t]
  {
    hide Run, Tree, Cross;
    var bos, text := BOS, Leaf(Kind.Text, t, false, false);
    var nodes := [bos, text, EOS];
    assert nodes[..2] == [bos, text] && [bos, text][..1] == [bos] && [bos][..0] == [];
    var start := Queues([], []);
    assert WalkedAll([], false, false, start) == start;
    assert WalkedAll([bos], false, false, start) == start;
    CrossUnit([t]);
    assert WalkedAll([bos, text], false, false, start).inner == [[t]];
    assert WalkedAll(nodes, false, false, start).inner == [[t]];
    assert [[t]][..0] == [] && Union([]) == [];
    assert Union([[t]]) == [t];
  }

  // --- characters that are dropped ---

  lemma SameChar(p: string, q: string, v: string, i: nat)
    ensures CharAt(p + v, |p| + i) == CharAt(q + v, |q| + i)
    ensures i < |v| ==> (p + v)[|p| + i] == v[i] == (q + v)[|q| + i]
  {
  }

  lemma {:induction false} BracketsShift(p: string, q: string, v: string, i: nat, brackets: int, value: string)
    ensures var a, b := ScanBrackets(p + v, |p| + i, brackets, value), ScanBrackets(q + v, |q| + i, brackets, value);
      a.0 == b.0 && a.1 == b.1 && a.2 - |p| == b.2 - |q| && a.2 >= |p|
    decreases |v| - i
  {
    hide CharAt;
    SameChar(p, q, v, i);
    SameChar(p, q, v, i + 1);
    if i < |v| {
      var longer := value + [v[i]];
      if v[i] == '[' {
        BracketsShift(p, q, v, i + 1, brackets + 1, longer);
      } else if v[i] == '\\' {
        BracketsShift(p, q, v, i + 2, brackets, longer + CharAt(p + v, |p| + i + 1));
      } else if v[i] == ']' {
        BracketsShift(p, q, v, i + 1, brackets - 1, longer);
      } else {
        BracketsShift(p, q, v, i + 1, brackets, longer);
      }
    }
  }

  lemma {:induction false} QuoteShift(p: string, q: string, v: string, i: nat, mark: char, value: string)
    ensures var a, b := ScanQuote(p + v, |p| + i, mark, value), ScanQuote(q + v, |q| + i, mark, value);
      a.0 == b.0 && a.1 - |p| == b.1 - |q| && a.1 >= |p|
    decreases |v| - i
  {
    hide CharAt;
    SameChar(p, q, v, i);
    SameChar(p, q, v, i + 1);
    if i < |v| {
      var longer := value + [v[i]];
      if v[i] == '\\' {
        QuoteShift(p, q, v, i + 2, mark, longer + CharAt(p + v, |p| + i + 1));
      } else {
        QuoteShift(p, q, v, i + 1, mark, longer);
      }
    }
  }

  /** What is parsed from a position on depends on the text from there only. */
  lemma {:induction false} RunShift(st: State, p: string, q: string, v: string, i: nat)
    requires st.Valid()
    ensures Run(st, p + v, |p| + i) == Run(st, q + v, |q| + i)
    decreases if i < |v| then |v| - i else 0
  {
    hide Step, PushText, ScanBrackets, ScanQuote;
    if i < |v| {
      var c := v[i];
      assert (p + v)[|p| + i] == c == (q + v)[|q| + i];
      if IsIgnored(c) {
        RunShift(st, p, q, v, i + 1);
      } else if c == '\\' {
        assert CharAt(p + v, |p| + i + 1) == CharAt(q + v, |q| + i + 1);
        RunShift(PushText(st, CharAt(p + v, |p| + i + 1)), p, q, v, i + 2);
      } else if c == ']' {
        RunShift(PushText(st, "\\]"), p, q, v, i + 1);
      } else if c == '[' {
        BracketsShift(p, q, v, i + 1, st.brackets + 1, "[");
        var (value, brackets, next) := ScanBrackets(p + v, |p| + i + 1, st.brackets + 1, "[");
        RunShift(PushText(st, value).(brackets := brackets), p, q, v, next - |p|);
      } else if IsQuote(c) {
        QuoteShift(p, q, v, i + 1, c, "");
        var (value, next) := ScanQuote(p + v, |p| + i + 1, c, "");
        RunShift(PushText(st, value), p, q, v, next - |p|);
      } else {
        RunShift(Step(st, c), p, q, v, i + 1);
      }
    }
  }

  lemma {:induction false} PlainFirst(st: State, u: string, v: string, i: nat)
    requires st.Valid() && AllPlain(u) && i <= |u|
    ensures Run(st, u + v, i) == Run(Steps(st, u[i..]), u + v, |u|)
    decreases |u| - i
  {
    hide Step;
    if i < |u| {
      assert (u + v)[i] == u[i] && IsPlain(u[i]);
      PlainFirst(Step(st, u[i]), u, v, i + 1);
      assert u[i..][1..] == u[i + 1..];
    }
  }

  /** A no-break space or a byte-order mark after plain text is as if it were not there. */
  lemma {:induction false} Dropped(u: string, c: char, v: string)
    requires AllPlain(u) && (c == '\U{00A0}' || c == '\U{FEFF}')
    ensures Run(Initial(), u + ([c] + v), 0) == Run(Initial(), u + v, 0)
  {
    hide Step, Steps;
    var st := Initial();
    assert u[0..] == u;
    PlainFirst(st, u, [c] + v, 0);
    PlainFirst(st, u, v, 0);
    var at := Steps(st, u);
    assert (u + ([c] + v))[|u|] == c;
    assert Run(at, u + ([c] + v), |u|) == Run(at, u + ([c] + v), |u| + 1);
    assert u + ([c] + v) == (u + [c]) + v;
    RunShift(at, u + [c], u, v, 0);
  }

  // --- a brace that is never closed ---

  predicate Leaves(nodes: seq<Node>) {
    forall i :: 0 <= i < |nodes| ==> nodes[i].Leaf? && nodes[i].kind != Open && nodes[i].kind != Close
  }

  /** Leaves alone are concatenated. */
  lemma {:induction false} LeavesExpand(nodes: seq<Node>)
    requires Leaves(nodes)
    ensures var w := WalkedAll(nodes, false, false, Queues([], []));
      w.inner == if StringifyAll(nodes) == "" then [] else [[StringifyAll(nodes)]]
    decreases |nodes|
  {
    hide Join;
    if |nodes| > 0 {
      var n := |nodes| - 1;
      LeavesExpand(nodes[..n]);
      var v, before := nodes[n].value, StringifyAll(nodes[..n]);
      assert StringifyAll(nodes) == before + v && before + "" == before && "" + v == v;
      if v != "" {
        if StringifyAll(nodes[..n]) == "" {
          JoinFresh([], [v]);
        } else {
          JoinLone(StringifyAll(nodes[..n]), v);
        }
      }
    }
  }

  lemma JoinLone(a: string, b: string)
    ensures Join([[a]], [b]) == [[a + b]]
  {
    hide Cross;
    CrossSingle(a, b);
    assert [[a]][..0] == [];
  }

  predicate AllLeaves(nodes: seq<Node>) {
    forall i :: 0 <= i < |nodes| ==> nodes[i].Leaf?
  }

  /** Only leaves so far, behind one open brace. */
  predicate FlatOpen(st: State) {
    && st.Valid() && |st.stack| == 2 && st.stack[0].nodes == [BOS] && st.stack[0].own.None?
    && |st.Top().nodes| > 0 && AllLeaves(st.Top().nodes)
    && st.Top().kind == Brace && st.Top().ranges == 0 && st.depth == 1 && !st.onBlock
  }

  lemma {:induction false} CharFlat(st: State, c: char)
    requires FlatOpen(st) && IsLiteral(c)
    ensures FlatOpen(Step(st, c))
  {
    hide StringifyAll;
  }

  lemma {:induction false} CharsFlat(st: State, t: string)
    requires FlatOpen(st) && forall k :: 0 <= k < |t| ==> IsLiteral(t[k])
    ensures FlatOpen(Steps(st, t))
    decreases |t|
  {
    hide Step, IsLiteral, AllLeaves;
    if |t| > 0 {
      CharFlat(st, t[0]);
      CharsFlat(Step(st, t[0]), t[1..]);
    }
  }

  lemma {:induction false} BraceOpens()
    ensures FlatOpen(Step(Initial(), '{'))
  {
    var st := Initial();
    assert LastLeaf([BOS]) == Some(BOS) && PrevKind(st) == Bos;
    assert NewBlock(Brace, false).nodes + [OPEN] == [OPEN];
  }

  lemma {:induction false} FlatTree(st: State)
    requires FlatOpen(st)
    ensures Tree(st).Block? && Tree(st).own.None? && Leaves(Tree(st).nodes)
  {
    var merged := [BOS] + MarkAll(st.Top().nodes);
    var root := st.stack[0].(nodes := merged);
    assert st.stack[..0] + [root] == [root];
    assert Unwind([root]) == merged;
    assert Unwind(st.stack) == merged;
  }

  lemma LiteralsPlain(t: string)
    requires forall k :: 0 <= k < |t| ==> IsLiteral(t[k])
    ensures AllPlain("{" + t) && '.' !in "{" + t
  {
  }

  /** An opening brace that is never closed is text, and so are the commas behind it. */
  lemma {:induction false} UnclosedBrace(t: string)
    requires forall k :: 0 <= k < |t| ==> IsLiteral(t[k])
    ensures Expansion(Tree(Run(Initial(), "{" + t, 0))) == ["{" + t]
  {
    hide Run, Tree, Step, IsLiteral, FlatOpen, WalkedAll, StringifyAll, AllPlain;
    var s, st := "{" + t, Initial();
    LiteralsPlain(t);
    RunIsSteps(st, s, 0);
    assert s[0..] == s;
    StepsConcat(st, "{", t);
    StepsOne(st, '{');
    BraceOpens();
    CharsFlat(Step(st, '{'), t);
    FlatTree(Run(st, s, 0));
    NoDotNoDots(s);
    WithoutThreeDots(s);
    var root := Tree(Run(st, s, 0));
    assert Stringify(root) == StringifyAll(root.nodes);
    LeavesExpand(root.nodes);
    UnionOne([s]);
  }

  // --- a dollar sign ---

  /** Inside a brace behind a dollar sign: `below` are the blocks around it. */
  predicate Inside(st: State, below: seq<Node>, depth: int) {
    && st.Valid() && |st.stack| == |below| + 1 && st.stack[..|below|] == below
    && st.Top().kind == Brace && st.Top().dollar && st.Top().ranges == 0 && st.Top().own.None?
    && st.depth == depth > 0 && !st.onBlock
  }

  lemma CharInside(st: State, c: char, below: seq<Node>, depth: int)
    requires Inside(st, below, depth) && IsLiteral(c)
    ensures Inside(Step(st, c), below, depth)
  {
    hide ExtendLeaf, KindOf, StringifyAll;
  }

  lemma OpenInside(st: State, below: seq<Node>, depth: int)
    requires Inside(st, below, depth)
    ensures Inside(Step(st, '{'), st.stack, depth + 1)
  {
    hide ExtendLeaf, KindOf, PrevValue;
  }

  lemma CloseInside(st: State, below: seq<Node>, depth: int, inner: State)
    requires Inside(st, below, depth) && Inside(inner, st.stack, depth + 1)
    ensures Inside(Step(inner, '}'), below, depth)
  {
    hide ExtendLeaf, KindOf;
  }

  lemma InsideValid(st: State, below: seq<Node>, depth: int)
    requires Inside(st, below, depth)
    ensures st.Valid()
  {
  }

  lemma {:induction false} TextInside(st: State, p: Pattern, below: seq<Node>, depth: int)
    requires Inside(st, below, depth) && WellFormed(p, false)
    ensures st.Valid() && Inside(Steps(st, BracePattern.Text(p)), below, depth)
    decreases p, 0
  {
    hide Step, Inside;
    InsideValid(st, below, depth);
    match p
    case Nil =>
    case Char(c, rest) =>
      CharInside(st, c, below, depth);
      StepsConcat(st, [c], BracePattern.Text(rest));
      StepsOne(st, c);
      TextInside(Step(st, c), rest, below, depth);
    case Group(alts, rest) =>
      GroupInside(st, alts, below, depth);
      assert BracePattern.Text(p) == ("{" + AltsText(alts) + "}") + BracePattern.Text(rest);
      StepsConcat(st, "{" + AltsText(alts) + "}", BracePattern.Text(rest));
      TextInside(Steps(st, "{" + AltsText(alts) + "}"), rest, below, depth);
  }

  lemma {:induction false} GroupInside(st: State, alts: Alts, below: seq<Node>, depth: int)
    requires Inside(st, below, depth) && WellFormedAlts(alts)
    ensures st.Valid() && Inside(Steps(st, "{" + AltsText(alts) + "}"), below, depth)
    decreases alts, 1
  {
    hide Step, Inside;
    InsideValid(st, below, depth);
    OpenInside(st, below, depth);
    var inner := Step(st, '{');
    InsideValid(inner, st.stack, depth + 1);
    AltsInside(inner, alts, st.stack, depth + 1);
    var full := Steps(inner, AltsText(alts));
    CloseInside(st, below, depth, full);
    StepsConcat(st, "{" + AltsText(alts), "}");
    StepsConcat(st, "{", AltsText(alts));
    StepsOne(st, '{');
    StepsOne(full, '}');
  }

  lemma {:induction false} AltsInside(st: State, alts: Alts, below: seq<Node>, depth: int)
    requires Inside(st, below, depth) && WellFormedAlts(alts)
    ensures st.Valid() && Inside(Steps(st, AltsText(alts)), below, depth)
    decreases alts, 0
  {
    hide Step, Inside;
    InsideValid(st, below, depth);
    match alts
    case Last(p) => TextInside(st, p, below, depth);
    case More(p, others) =>
      TextInside(st, p, below, depth);
      var a := Steps(st, BracePattern.Text(p));
      CommaIsLiteral();
      CharInside(a, ',', below, depth);
      StepsConcat(st, BracePattern.Text(p) + ",", AltsText(others));
      StepsConcat(st, BracePattern.Text(p), ",");
      StepsOne(a, ',');
      AltsInside(Step(a, ','), others, below, depth);
  }

  lemma CommaIsLiteral()
    ensures IsLiteral(',')
  {
  }

  lemma {:induction false} NoDotText(p: Pattern, top: bool)
    requires WellFormed(p, top)
    ensures '.' !in BracePattern.Text(p)
  {
    match p
    case Nil =>
    case Char(c, rest) => NoDotText(rest, top);
    case Group(alts, rest) =>
      NoDotAlts(alts);
      NoDotText(rest, top);
  }

  lemma {:induction false} NoDotAlts(alts: Alts)
    requires WellFormedAlts(alts)
    ensures '.' !in AltsText(alts)
  {
    match alts
    case Last(p) => NoDotText(p, false);
    case More(p, others) =>
      NoDotText(p, false);
      NoDotAlts(others);
  }

  lemma NoDotNoDots(s: string)
    requires '.' !in s
    ensures !ThreeDots(s)
  {
    forall i: nat ensures !(i <= |s| && Dotted(s[i..], 3)) {
      if i + 3 <= |s| {
        assert s[i..][0] == s[i];
      }
    }
  }

  /** A dollar sign, then the opening brace. */
  lemma {:induction false} DollarOpens()
    ensures var a := Step(Initial(), '$'); var b := Step(a, '{');
      && a.stack == [Initial().stack[0].(nodes := [BOS, Leaf(Kind.Text, "$", false, false)])]
      && Inside(b, a.stack, 1)
  {
    var st := Initial();
    assert LastLeaf([BOS]) == Some(BOS) && PrevKind(st) == Bos;
    assert st.stack[..0] == [];
    assert [BOS] + [Leaf(Kind.Text, "$", false, false)] == [BOS, Leaf(Kind.Text, "$", false, false)];
    var a := Step(st, '$');
    assert PrevValue(a) == "$";
  }

  lemma DollarCloses(a: State, inner: State)
    requires a.Valid() && |a.stack| == 1 && Inside(inner, a.stack, 1)
    ensures var r := Step(inner, '}');
      |r.stack| == 1 && |r.stack[0].nodes| == |a.stack[0].nodes| + 1
      && var block := r.stack[0].nodes[|a.stack[0].nodes|];
         && r.stack[0] == a.stack[0].(nodes := a.stack[0].nodes + [block])
         && block.Block? && block.dollar && block.kind == Brace && block.own.None?
  {
    hide ExtendLeaf, KindOf;
  }

  /** The tree of a dollar sign and a brace. */
  lemma {:induction false} DollarTree(alts: Alts) returns (block: Node)
    requires WellFormedAlts(alts)
    ensures var s := "$" + ("{" + AltsText(alts) + "}"); var root := Tree(Run(Initial(), s, 0));
      && block.Block? && block.dollar && block.kind == Brace && block.own.None? && root.Block? && root.own.None?
      && root.nodes == [BOS, Leaf(Kind.Text, "$", false, false), block, EOS]
  {
    hide Step, Inside;
    var s := "$" + ("{" + AltsText(alts) + "}");
    var st := Initial();
    AltsTextIsPlain(alts);
    RunIsSteps(st, s, 0);
    assert s[0..] == s;
    var a := Step(st, '$');
    DollarOpens();
    var b := Step(a, '{');
    AltsInside(b, alts, a.stack, 1);
    var full := Steps(b, AltsText(alts));
    StepsConcat(st, "$", "{" + AltsText(alts) + "}");
    StepsOne(st, '$');
    StepsConcat(a, "{" + AltsText(alts), "}");
    StepsConcat(a, "{", AltsText(alts));
    StepsOne(a, '{');
    InsideValid(full, a.stack, 1);
    StepsOne(full, '}');
    DollarCloses(a, full);
    block := Step(full, '}').stack[0].nodes[2];
  }

  /** A brace behind a dollar sign stands for itself, as it is written. */
  lemma {:induction false} DollarVerbatim(alts: Alts)
    requires WellFormedAlts(alts)
    ensures var s := "$" + ("{" + AltsText(alts) + "}"); Expansion(Tree(Run(Initial(), s, 0))) == [s]
  {
    hide Run, Tree, AltsText, Cross, WalkedAll, StringifyAll, Union;
    var s := "$" + ("{" + AltsText(alts) + "}");
    AltsTextIsPlain(alts);
    NoDotAlts(alts);
    NoDotNoDots(s);
    WithoutThreeDots(s);
    var block := DollarTree(alts);
    var root := Tree(Run(Initial(), s, 0));
    DollarPrints(block);
    DollarExpands(block);
    assert Stringify(root) == StringifyAll(root.nodes);
  }

  lemma {:induction false} DollarPrints(block: Node)
    ensures StringifyAll([BOS, Leaf(Kind.Text, "$", false, false), block, EOS]) == "$" + Stringify(block)
  {
    hide Stringify;
    var dollar := Leaf(Kind.Text, "$", false, false);
    StringifyOne(BOS);
    StringifySnoc([BOS], dollar);
    assert [BOS] + [dollar] == [BOS, dollar];
    StringifySnoc([BOS, dollar], block);
    assert [BOS, dollar] + [block] == [BOS, dollar, block];
    StringifySnoc([BOS, dollar, block], EOS);
    assert [BOS, dollar, block] + [EOS] == [BOS, dollar, block, EOS];
    LeavesPrint();
  }

  lemma LeavesPrint()
    ensures Stringify(BOS) == "" && Stringify(EOS) == "" && Stringify(Leaf(Kind.Text, "$", false, false)) == "$"
  {
  }

  lemma {:induction false} DollarWalked(block: Node, i: nat, st: Queues)
    requires block.Block? && block.dollar && block.kind == Brace && OwnText(block) == ""
    ensures WalkedChild(block, i, false, false, st) == st.(inner := Join(st.inner, [Stringify(block)]))
    ensures WalkedChild(EOS, i, false, false, st) == st
  {
    hide Join, Stringify;
  }

  lemma {:induction false} DollarExpands(block: Node)
    requires block.Block? && block.dollar && block.kind == Brace && OwnText(block) == ""
    ensures Union(WalkedAll([BOS, Leaf(Kind.Text, "$", false, false), block, EOS], false, false, Queues([], [])).inner)
            == ["$" + Stringify(block)]
  {
    hide Cross, Stringify, WalkedAll, WalkedChild, Join, OwnText;
    var dollar, start := Leaf(Kind.Text, "$", false, false), Queues([], []);
    var begun := Queues([["$"]], []);
    WalkBos(start);
    WalkSnoc([BOS], dollar, false, false, start);
    WalkText("$", false, false, 1, false, false, start);
    JoinFresh([], ["$"]);
    assert [BOS] + [dollar] == [BOS, dollar];
    WalkSnoc([BOS, dollar], block, false, false, start);
    assert [BOS, dollar] + [block] == [BOS, dollar, block];
    DollarWalked(block, 2, begun);
    JoinLone("$", Stringify(block));
    var full := Queues([["$" + Stringify(block)]], []);
    WalkSnoc([BOS, dollar, block], EOS, false, false, start);
    assert [BOS, dollar, block] + [EOS] == [BOS, dollar, block, EOS];
    DollarWalked(block, 3, full);
    UnionOne(["$" + Stringify(block)]);
  }

  lemma {:induction false} UnionOne(ss: seq<string>)
    ensures Union([ss]) == ss
  {
    assert [ss][..0] == [] && Union([]) == [];
  }

  // --- braces taken literally by both back ends ---

  /** A comma that compiles to itself, and any other leaf. */
  predicate PlainLeaf(n: Node) {
    n.Leaf? && (n.kind == Comma ==> !n.afterComma)
  }

  /** One open brace with only leaves in it, which its dollar sign or its dots make literal. */
  predicate LiteralOpen(st: State, root: Node) {
    && st.Valid() && |st.stack| == 2 && st.stack[0] == root
    && root.own.None? && root.kind == Root && AllLeaves(root.nodes)
    && |st.Top().nodes| > 0 && (forall i :: 0 <= i < |st.Top().nodes| ==> PlainLeaf(st.Top().nodes[i]))
    && st.Top().kind == Brace && st.Top().own.None? && st.Top().ranges == 0 && (st.Top().dollar || st.Top().invalid)
    && st.depth == 1 && !st.onBlock
  }

  predicate NoDoubleComma(t: string) {
    forall k :: 0 <= k < |t| - 1 ==> !(t[k] == ',' && t[k + 1] == ',')
  }

  lemma CharLiteral(st: State, root: Node, c: char)
    requires LiteralOpen(st, root) && IsLiteral(c) && (PrevKind(st) == Comma ==> c != ',')
    ensures LiteralOpen(Step(st, c), root) && (PrevKind(Step(st, c)) == Comma ==> c == ',')
  {
    hide StringifyAll;
    var nodes := st.Top().nodes;
    assert LastLeaf(nodes) == Some(nodes[|nodes| - 1]);
  }

  lemma {:induction false} CharsLiteral(st: State, root: Node, t: string)
    requires LiteralOpen(st, root) && (forall k :: 0 <= k < |t| ==> IsLiteral(t[k])) && NoDoubleComma(t)
    requires |t| > 0 && PrevKind(st) == Comma ==> t[0] != ','
    ensures LiteralOpen(Steps(st, t), root)
    decreases |t|
  {
    hide Step, IsLiteral, PrevKind, LiteralOpen;
    if |t| > 0 {
      LiteralValid(st, root);
      CharLiteral(st, root, t[0]);
      if |t| > 1 {
        assert !(t[0] == ',' && t[0 + 1] == ',');
      }
      forall k | 0 <= k < |t[1..]| - 1 ensures !(t[1..][k] == ',' && t[1..][k + 1] == ',') {
        assert !(t[k + 1] == ',' && t[k + 1 + 1] == ',');
      }
      CharsLiteral(Step(st, t[0]), root, t[1..]);
    }
  }

  lemma LiteralValid(st: State, root: Node)
    requires LiteralOpen(st, root)
    ensures st.Valid()
  {
  }

  /** A closed brace of that kind, alone behind some leaves. */
  predicate LiteralTree(tree: Node, root: Node, block: Node) {
    && root.Block? && AllLeaves(root.nodes)
    && tree.Block? && tree.kind == Root && tree.own.None? && tree.nodes == root.nodes + [block, EOS]
    && block.Block? && block.kind == Brace && block.own.None? && (block.dollar || block.invalid)
    && forall i :: 0 <= i < |block.nodes| ==> PlainLeaf(block.nodes[i])
  }

  lemma {:induction false} LiteralCloses(st: State, root: Node) returns (block: Node)
    requires LiteralOpen(st, root)
    ensures LiteralTree(Tree(Step(st, '}')), root, block)
  {
    var r := Step(st, '}');
    var top := st.Top();
    block := r.stack[0].nodes[|root.nodes|];
    assert st.stack[..0] == [];
    assert Unwind(r.stack) == r.stack[0].nodes;
    assert root.nodes + [block] + [EOS] == root.nodes + [block, EOS];
  }

  lemma {:induction false} PlainLeavesCompile(nodes: seq<Node>)
    requires forall i :: 0 <= i < |nodes| ==> PlainLeaf(nodes[i])
    ensures CompileAll(nodes, true) == StringifyAll(nodes)
  {
    if |nodes| > 0 {
      PlainLeavesCompile(nodes[..|nodes| - 1]);
    }
  }

  /** Text only, as far as the compiler is concerned. */
  predicate Quiet(nodes: seq<Node>) {
    forall i :: 0 <= i < |nodes| ==> nodes[i].Leaf? && nodes[i].kind !in {Open, Close, Comma}
  }

  lemma {:induction false} QuietCompiles(nodes: seq<Node>)
    requires Quiet(nodes)
    ensures CompileAll(nodes, false) == StringifyAll(nodes)
  {
    if |nodes| > 0 {
      QuietCompiles(nodes[..|nodes| - 1]);
    }
  }

  lemma {:induction false} LiteralTreeCompiles(tree: Node, root: Node, block: Node)
    requires LiteralTree(tree, root, block) && Quiet(root.nodes)
    ensures CompileNode(tree, false) == Stringify(tree)
  {
    hide CompileAll, StringifyAll, Quiet;
    PlainLeavesCompile(block.nodes);
    QuietCompiles(root.nodes);
    assert CompileNode(block, false) == Stringify(block);
    CompileSnoc(root.nodes, block, false);
    CompileSnoc(root.nodes + [block], EOS, false);
    assert root.nodes + [block] + [EOS] == root.nodes + [block, EOS];
    StringifySnoc(root.nodes, block);
    StringifySnoc(root.nodes + [block], EOS);
  }

  lemma {:induction false} InvalidExpands(tree: Node, root: Node, block: Node)
    requires LiteralTree(tree, root, block) && root.nodes == [BOS]
    ensures Expansion(tree) == [Stringify(tree)]
  {
    hide Cross, Stringify, StringifyAll, WalkedAll, WalkedChild, Join, OwnText;
    var start := Queues([], []);
    WalkBos(start);
    WalkSnoc([BOS], block, false, false, start);
    assert [BOS] + [block] == [BOS, block] && [BOS] + [block, EOS] == [BOS, block] + [EOS];
    LiteralWalked(block, 1, start);
    JoinFresh([], [Stringify(block)]);
    WalkSnoc([BOS, block], EOS, false, false, start);
    LiteralWalked(block, 2, Queues([[Stringify(block)]], []));
    UnionOne([Stringify(block)]);
    StringifyOne(BOS);
    StringifySnoc([BOS], block);
    StringifySnoc([BOS, block], EOS);
    LeavesPrint();
    BlockPrints(tree);
    assert "" + Stringify(block) + "" == Stringify(block);
    assert tree.nodes == [BOS, block] + [EOS];
  }

  lemma {:induction false} BlockPrints(tree: Node)
    requires tree.Block? && tree.own.None?
    ensures Stringify(tree) == StringifyAll(tree.nodes)
  {
  }

  lemma {:induction false} LiteralWalked(block: Node, i: nat, st: Queues)
    requires block.Block? && block.kind == Brace && block.own.None? && (block.dollar || block.invalid)
    ensures WalkedChild(block, i, false, false, st) == st.(inner := Join(st.inner, [Stringify(block)]))
    ensures WalkedChild(EOS, i, false, false, st) == st
  {
    hide Join, Stringify;
  }

  /** The parser's state behind an opening brace at the start. */
  lemma {:induction false} BraceFirst()
    ensures var a := Step(Initial(), '{');
      && a.stack == [Initial().stack[0], Block(Brace, None, [OPEN], false, false, 0, 0, false)]
      && a.depth == 1 && !a.onBlock
  {
    assert LastLeaf([BOS]) == Some(BOS) && PrevKind(Initial()) == Bos;
    assert NewBlock(Brace, false).nodes + [OPEN] == [OPEN];
  }

  lemma {:induction false} FirstDot(a: State)
    requires |a.stack| == 2 && a.stack[0].Block? && a.depth == 1 && !a.onBlock
    requires a.stack[1] == Block(Brace, None, [OPEN], false, false, 0, 0, false)
    ensures a.Valid() && var b := Step(a, '.');
      && b.stack == [a.stack[0], a.stack[1].(nodes := [OPEN, Leaf(Dot, ".", false, false)])]
      && b.depth == 1 && !b.onBlock
  {
    assert LastLeaf([OPEN]) == Some(OPEN) && PrevKind(a) == Open;
    assert [OPEN] + [Leaf(Dot, ".", false, false)] == [OPEN, Leaf(Dot, ".", false, false)];
    assert a.stack[..1] == [a.stack[0]];
  }

  lemma {:induction false} NextDot(b: State, root: Node)
    requires |b.stack| == 2 && b.stack[0] == root && root.Block? && b.depth == 1 && !b.onBlock
    requires root.own.None? && root.kind == Root && AllLeaves(root.nodes)
    requires b.stack[1] == Block(Brace, None, [OPEN, Leaf(Dot, ".", false, false)], false, false, 0, 0, false)
    ensures b.Valid() && LiteralOpen(Step(b, '.'), root) && PrevKind(Step(b, '.')) == Kind.Text
  {
    var nodes := [OPEN, Leaf(Dot, ".", false, false)];
    assert LastLeaf(nodes) == Some(nodes[1]) && PrevKind(b) == Dot;
    var after := [OPEN, Leaf(Kind.Text, "..", false, false)];
    assert nodes[..1] == [OPEN] && [OPEN] + [Leaf(Kind.Text, "..", false, false)] == after;
    assert "." + "." == "..";
    assert ExtendLeaf(nodes, Kind.Text, ".") == after;
    var c := Step(b, '.');
    assert c.Top().nodes == after && LastLeaf(after) == Some(after[1]);
  }

  /** Two dots right behind the brace cannot be a range. */
  lemma {:induction false} DotsOpen()
    ensures var st := Steps(Initial(), "{.."); var root := Initial().stack[0];
      LiteralOpen(st, root) && root.nodes == [BOS] && PrevKind(st) == Kind.Text
  {
    hide Step, LiteralOpen, KindOf;
    BraceFirst();
    var a := Step(Initial(), '{');
    FirstDot(a);
    var b := Step(a, '.');
    NextDot(b, Initial().stack[0]);
    var c := Step(b, '.');
    assert "{.."[1..] == ".." && ".."[1..] == "." && "."[1..] == "";
    assert Steps(c, "") == c && Steps(b, ".") == c && Steps(a, "..") == c;
  }

  lemma DotsPlain(t: string)
    requires forall k :: 0 <= k < |t| ==> IsLiteral(t[k])
    ensures AllPlain("{.." + t + "}") && !ThreeDots("{.." + t + "}")
  {
    var s := "{.." + t + "}";
    forall i: nat ensures !(i <= |s| && Dotted(s[i..], 3)) {
      if i + 3 <= |s| {
        assert s[i..][0] == s[i] && s[i..][1] == s[i + 1] && s[i..][2] == s[i + 2];
        assert i >= 1 ==> s[i + 2] != '.';
      }
    }
  }

  /** A brace that begins with two dots stands for itself, in both back ends, commas or not. */
  lemma {:induction false} DotsVerbatim(t: string)
    requires (forall k :: 0 <= k < |t| ==> IsLiteral(t[k])) && NoDoubleComma(t)
    ensures var s := "{.." + t + "}"; var tree := Tree(Run(Initial(), s, 0));
      Expansion(tree) == [s] && CompileNode(tree, false) == s
  {
    hide Step, Tree, Run, IsLiteral, AllPlain, ThreeDots, LiteralOpen, Stringify, CompileNode, Expansion;
    var s, st, root := "{.." + t + "}", Initial(), Initial().stack[0];
    DotsPlain(t);
    RunIsSteps(st, s, 0);
    assert s[0..] == s;
    DotsOpen();
    var a := Steps(st, "{..");
    CharsLiteral(a, root, t);
    var full := Steps(a, t);
    LiteralValid(full, root);
    StepsConcat(st, "{.." + t, "}");
    StepsConcat(st, "{..", t);
    StepsOne(full, '}');
    var block := LiteralCloses(full, root);
    WithoutThreeDots(s);
    LiteralTreeCompiles(Tree(Run(st, s, 0)), root, block);
    InvalidExpands(Tree(Run(st, s, 0)), root, block);
  }

  lemma {:induction false} DollarFirst()
    ensures var a := Step(Initial(), '$');
      && a.stack == [Initial().stack[0].(nodes := [BOS, Leaf(Kind.Text, "$", false, false)])]
      && a.depth == 0 && !a.onBlock
  {
    assert LastLeaf([BOS]) == Some(BOS) && PrevKind(Initial()) == Bos;
    assert Initial().stack[..0] == [];
    assert [BOS] + [Leaf(Kind.Text, "$", false, false)] == [BOS, Leaf(Kind.Text, "$", false, false)];
  }

  lemma {:induction false} BraceBehindDollar(a: State, root: Node)
    requires a.stack == [root] && root.Block? && a.depth == 0 && !a.onBlock
    requires root.own.None? && root.kind == Root && root.nodes == [BOS, Leaf(Kind.Text, "$", false, false)]
    ensures a.Valid() && LiteralOpen(Step(a, '{'), root) && PrevKind(Step(a, '{')) == Open
  {
    assert LastLeaf(root.nodes) == Some(root.nodes[1]) && PrevValue(a) == "$";
    assert NewBlock(Brace, true).nodes + [OPEN] == [OPEN];
    var b := Step(a, '{');
    assert b.stack == [root, Block(Brace, None, [OPEN], false, true, 0, 0, false)];
    assert LastLeaf([OPEN]) == Some(OPEN);
  }

  lemma {:induction false} DollarOpen()
    ensures var st := Steps(Initial(), "${"); var root := Step(Initial(), '$').stack[0];
      && LiteralOpen(st, root) && root.nodes == [BOS, Leaf(Kind.Text, "$", false, false)] && PrevKind(st) == Open
  {
    hide Step, LiteralOpen, KindOf;
    DollarFirst();
    var a := Step(Initial(), '$');
    BraceBehindDollar(a, a.stack[0]);
    var b := Step(a, '{');
    assert "${"[1..] == "{" && "{"[1..] == "";
    assert Steps(b, "") == b && Steps(a, "{") == b;
  }

  lemma DollarPlain(t: string)
    requires forall k :: 0 <= k < |t| ==> IsLiteral(t[k])
    ensures AllPlain("${" + t + "}") && '.' !in "${" + t + "}"
  {
  }

  /** A brace behind a dollar sign compiles to itself. */
  lemma {:induction false} DollarCompiles(t: string)
    requires (forall k :: 0 <= k < |t| ==> IsLiteral(t[k])) && NoDoubleComma(t)
    ensures var s := "${" + t + "}"; CompileNode(Tree(Run(Initial(), s, 0)), false) == s
  {
    hide Step, Tree, Run, IsLiteral, AllPlain, ThreeDots, LiteralOpen, Stringify, CompileNode;
    var s, st, root := "${" + t + "}", Initial(), Step(Initial(), '$').stack[0];
    DollarPlain(t);
    NoDotNoDots(s);
    RunIsSteps(st, s, 0);
    assert s[0..] == s;
    DollarOpen();
    var a := Steps(st, "${");
    CharsLiteral(a, root, t);
    var full := Steps(a, t);
    LiteralValid(full, root);
    StepsConcat(st, "${" + t, "}");
    StepsConcat(st, "${", t);
    StepsOne(full, '}');
    var block := LiteralCloses(full, root);
    WithoutThreeDots(s);
    LiteralTreeCompiles(Tree(Run(st, s, 0)), root, block);
  }

  // --- parentheses ---

  /** Inside parentheses right behind an opening brace; `v` is what they hold so far. */
  predicate InParens(st: State, root: Node, v: string) {
    && st.Valid() && |st.stack| == 3 && st.stack[0] == root
    && st.stack[1] == Block(Brace, None, [OPEN], false, false, 0, 0, false)
    && st.depth == 1 && !st.onBlock
    && st.Top().kind == Paren && st.Top().own.None? && !st.Top().invalid && !st.Top().dollar && st.Top().ranges == 0
    && Leaves(st.Top().nodes) && |st.Top().nodes| > 0 && v != "" && StringifyAll(st.Top().nodes) == v
  }

  lemma {:induction false} ParenFirst(a: State)
    requires |a.stack| == 2 && a.stack[0].Block? && a.depth == 1 && !a.onBlock
    requires a.stack[1] == Block(Brace, None, [OPEN], false, false, 0, 0, false)
    ensures a.Valid() && InParens(Step(a, '('), a.stack[0], "(")
  {
    var leaf := Leaf(Kind.Text, "(", false, false);
    var b := Step(a, '(');
    assert NewBlock(Paren, false).nodes + [leaf] == [leaf];
    assert b.Top().nodes == [leaf];
    StringifyOne(leaf);
  }

  lemma {:induction false} AddedLeaf(nodes: seq<Node>, leaf: Node)
    requires Leaves(nodes) && leaf.Leaf? && leaf.kind != Open && leaf.kind != Close
    ensures Leaves(nodes + [leaf]) && StringifyAll(nodes + [leaf]) == StringifyAll(nodes) + leaf.value
  {
    StringifySnoc(nodes, leaf);
  }

  lemma {:induction false} LongerLeaf(nodes: seq<Node>, more: string)
    requires Leaves(nodes) && |nodes| > 0
    ensures var r := ExtendLeaf(nodes, Kind.Text, more);
      Leaves(r) && |r| == |nodes| && StringifyAll(r) == StringifyAll(nodes) + more
      && LastLeaf(r).Some? && LastLeaf(r).value.kind == Kind.Text
  {
    ExtendLeafPrints(nodes, Kind.Text, more);
  }

  lemma {:induction false} TextInParens(st: State, root: Node, v: string, t: string)
    requires InParens(st, root, v)
    ensures InParens(PushText(st, t), root, v + t) && PrevKind(PushText(st, t)) == Kind.Text
  {
    hide StringifyAll, ExtendLeaf;
    var nodes := st.Top().nodes;
    assert LastLeaf(nodes) == Some(nodes[|nodes| - 1]);
    LongerLeaf(nodes, t);
    AddedLeaf(nodes, Leaf(Kind.Text, t, PrevKind(st) == Comma, false));
  }

  lemma {:induction false} CommaInParens(st: State, root: Node, v: string)
    requires InParens(st, root, v)
    ensures InParens(Step(st, ','), root, v + ",")
  {
    hide StringifyAll;
    var nodes := st.Top().nodes;
    AddedLeaf(nodes, Leaf(Comma, ",", PrevKind(st) == Comma, false));
  }

  lemma {:induction false} CharsInParens(st: State, root: Node, v: string, t: string)
    requires InParens(st, root, v) && forall k :: 0 <= k < |t| ==> IsLiteral(t[k])
    ensures st.Valid() && InParens(Steps(st, t), root, v + t)
    decreases |t|
  {
    hide Step, PushText, StringifyAll, IsLiteral;
    if |t| > 0 {
      var next := Step(st, t[0]);
      if t[0] == ',' {
        CommaInParens(st, root, v);
      } else {
        LiteralStep(st, t[0]);
        TextInParens(st, root, v, [t[0]]);
      }
      CharsInParens(next, root, v + [t[0]], t[1..]);
      assert v + [t[0]] + t[1..] == v + t;
    } else {
      assert v + t == v;
    }
  }

  lemma LiteralStep(st: State, c: char)
    requires st.Valid() && IsLiteral(c) && c != ','
    ensures Step(st, c) == PushText(st, [c])
  {
  }

  /** Behind the closing parenthesis: the brace holds one block of leaves. */
  predicate ParensClosed(st: State, root: Node, paren: Node, v: string) {
    && st.Valid() && |st.stack| == 2 && st.stack[0] == root
    && st.stack[1] == Block(Brace, None, [OPEN, paren], false, false, 0, 0, false)
    && st.depth == 1 && !st.onBlock && PrevKind(st) == Kind.Text
    && paren.Block? && paren.kind == Paren && paren.own.None? && !paren.invalid && !paren.dollar
    && Leaves(paren.nodes) && StringifyAll(paren.nodes) == v && v != ""
  }

  lemma {:induction false} ParensClose(st: State, root: Node, v: string) returns (paren: Node)
    requires InParens(st, root, v)
    ensures ParensClosed(Step(st, ')'), root, paren, v + ")")
  {
    hide StringifyAll, PushText;
    TextInParens(st, root, v, ")");
    var full := PushText(st, ")");
    paren := full.Top();
    assert full.stack[..1] == [root];
    assert [OPEN] + [paren] == [OPEN, paren];
  }

  /** What is left of the brace: a comma, one character, and its end. */
  lemma {:induction false} ParensTail(st: State, root: Node, paren: Node, v: string, c: char)
    requires ParensClosed(st, root, paren, v) && IsLiteral(c) && c != ',' && root.Block?
    ensures var r := Steps(st, "," + [c] + "}");
      && |r.stack| == 1
      && r.stack[0] == root.(nodes := root.nodes +
           [Block(Brace, None, ParenNodes(paren, c) + [Leaf(Close, "}", false, false)], true, false, 1, 0, false)])
  {
    hide StringifyAll, Leaves;
    var comma, text, close :=
      Leaf(Comma, ",", false, false), Leaf(Kind.Text, [c], true, false), Leaf(Close, "}", false, false);
    var a := Step(st, ',');
    assert [OPEN, paren] + [comma] == [OPEN, paren, comma];
    assert a.stack == [root, Block(Brace, None, [OPEN, paren, comma], false, false, 1, 0, false)];
    assert LastLeaf([OPEN, paren, comma]) == Some(comma) && PrevKind(a) == Comma;
    var b := Step(a, c);
    assert [OPEN, paren, comma] + [text] == [OPEN, paren, comma, text];
    assert b.stack == [root, Block(Brace, None, [OPEN, paren, comma, text], false, false, 1, 0, false)];
    assert LastLeaf([OPEN, paren, comma, text]) == Some(text) && PrevKind(b) == Kind.Text;
    var r := Step(b, '}');
    assert ParenNodes(paren, c) == [OPEN, paren, comma, text];
    var s := "," + [c] + "}";
    assert s[0] == ',' && s[1..] == [c] + "}" && s[1..][1..] == "}" && "}"[1..] == "";
    assert Steps(r, "") == r && Steps(b, "}") == r && Steps(a, [c] + "}") == r;
  }

  lemma {:induction false} LeavesJoin(nodes: seq<Node>, before: string)
    requires Leaves(nodes)
    ensures var w := WalkedAll(nodes, false, false, Queues([[before]], []));
      w == Queues([[before + StringifyAll(nodes)]], [])
    decreases |nodes|
  {
    hide Join;
    if |nodes| > 0 {
      var n := |nodes| - 1;
      LeavesJoin(nodes[..n], before);
      var v := nodes[n].value;
      assert StringifyAll(nodes) == StringifyAll(nodes[..n]) + v;
      JoinLone(before + StringifyAll(nodes[..n]), v);
      assert before + StringifyAll(nodes[..n]) + v == before + StringifyAll(nodes);
      assert v == "" ==> before + StringifyAll(nodes) == before + StringifyAll(nodes[..n]);
    } else {
      assert before + "" == before;
    }
  }

  lemma {:induction false} ParenWalked(paren: Node, v: string, q: seq<seq<string>>)
    requires paren.Block? && paren.kind == Paren && paren.own.None? && !paren.invalid && !paren.dollar
    requires Leaves(paren.nodes) && StringifyAll(paren.nodes) == v && v != ""
    ensures WalkedChild(paren, 1, true, false, Queues([], q)) == Queues([[v]], q)
  {
    hide WalkedAll, StringifyAll;
    LeavesExpand(paren.nodes);
  }

  function ParenNodes(paren: Node, c: char): (nodes: seq<Node>)
    ensures |nodes| == 4
  {
    [OPEN, paren, Leaf(Comma, ",", false, false), Leaf(Kind.Text, [c], true, false)]
  }

  lemma {:induction false} CommaWalked(st: Queues)
    ensures WalkedChild(Leaf(Comma, ",", false, false), 2, true, false, st) == st.(inner := st.inner + [[""]])
  {
  }

  lemma {:induction false} ParenNodesWalked(paren: Node, v: string, c: char)
    requires paren.Block? && paren.kind == Paren && paren.own.None? && !paren.invalid && !paren.dollar
    requires Leaves(paren.nodes) && StringifyAll(paren.nodes) == v && v != ""
    ensures WalkedAll(ParenNodes(paren, c), true, false, Queues([], [])) == Queues([[v], [[c]]], [])
  {
    hide WalkedAll, WalkedChild, StringifyAll, Join, Leaves;
    var start := Queues([], []);
    var comma, text := Leaf(Comma, ",", false, false), Leaf(Kind.Text, [c], true, false);
    WalkOpen(start, false);
    assert [OPEN] + [paren] == [OPEN, paren];
    WalkSnoc([OPEN], paren, true, false, start);
    ParenWalked(paren, v, []);
    assert [OPEN, paren] + [comma] == [OPEN, paren, comma];
    WalkSnoc([OPEN, paren], comma, true, false, start);
    CommaWalked(Queues([[v]], []));
    assert [[v]] + [[""]] == [[v], [""]];
    assert [OPEN, paren, comma] + [text] == ParenNodes(paren, c);
    WalkSnoc([OPEN, paren, comma], text, true, false, start);
    WalkText([c], true, false, 3, true, false, Queues([[v], [""]], []));
    JoinFresh([[v]], [[c]]);
    assert [[v]] + [[[c]]] == [[v], [[c]]];
  }

  lemma {:induction false} TwoAlternatives(block: Node, paren: Node, v: string, c: char)
    requires paren.Block? && paren.kind == Paren && paren.own.None? && !paren.invalid && !paren.dollar
    requires Leaves(paren.nodes) && StringifyAll(paren.nodes) == v && v != ""
    requires block == Block(Brace, None, ParenNodes(paren, c) + [Leaf(Close, "}", false, false)],
                            true, false, 1, 0, false)
    ensures Walked(block, []) == [[v, [c]]]
  {
    hide WalkedAll, StringifyAll, Join, Leaves, ParenNodes, Union;
    var start, close := Queues([], []), Leaf(Close, "}", false, false);
    ParenNodesWalked(paren, v, c);
    WalkSnoc(ParenNodes(paren, c), close, true, false, start);
    UnionTwo(v, [c]);
    JoinFresh([], [v, [c]]);
  }

  lemma {:induction false} UnionTwo(v: string, w: string)
    ensures Union([[v], [w]]) == [v, w]
  {
    UnionCons([v], [[w]]);
    UnionOne([w]);
    assert [[v]] + [[w]] == [[v], [w]];
  }

  /** Parentheses in a brace are text, and commas between them do not separate alternatives. */
  lemma {:induction false} ParensProtect(t: string, c: char)
    requires (forall k :: 0 <= k < |t| ==> IsLiteral(t[k])) && IsLiteral(c) && c != ','
    ensures var s := "{(" + t + ")" + ("," + [c] + "}");
      Expansion(Tree(Run(Initial(), s, 0))) == ["(" + t + ")", [c]]
  {
    hide Step, IsLiteral, AllPlain, InParens, ParensClosed, WalkedAll, Walked;
    var st := Initial();
    var s, tail := "{(" + t + ")" + ("," + [c] + "}"), "," + [c] + "}";
    ParensPlain(t, c);
    RunIsSteps(st, s, 0);
    assert s[0..] == s;
    BraceFirst();
    var a := Step(st, '{');
    ParenFirst(a);
    var b := Step(a, '(');
    InParensValid(b, a.stack[0], "(");
    CharsInParens(b, a.stack[0], "(", t);
    var d := Steps(b, t);
    InParensValid(d, a.stack[0], "(" + t);
    var paren := ParensClose(d, a.stack[0], "(" + t);
    var e := Step(d, ')');
    ClosedValid(e, a.stack[0], paren, "(" + t + ")");
    ParensTail(e, a.stack[0], paren, "(" + t + ")", c);
    StepsConcat(st, "{(" + t + ")", tail);
    StepsConcat(st, "{(" + t, ")");
    StepsConcat(st, "{(", t);
    StepsConcat(st, "{", "(");
    StepsOne(st, '{');
    StepsOne(a, '(');
    StepsOne(d, ')');
    assert "{" + "(" == "{(";
    var r := Steps(e, tail);
    var block := r.stack[0].nodes[1];
    assert r.stack[0].nodes == [BOS, block];
    assert Tree(r).nodes == [BOS, block, EOS];
    TwoAlternatives(block, paren, "(" + t + ")", c);
    OneBlockExpands(block, ["(" + t + ")", [c]]);
  }

  lemma {:induction false} OneBlockExpands(block: Node, ss: seq<string>)
    requires block.Block? && block.kind == Brace && block.own.None? && Walked(block, []) == [ss]
    ensures Union(WalkedAll([BOS, block, EOS], false, false, Queues([], [])).inner) == ss
  {
    hide WalkedAll, Walked;
    var start := Queues([], []);
    WalkBos(start);
    assert [BOS] + [block] == [BOS, block] && [BOS, block] + [EOS] == [BOS, block, EOS];
    WalkSnoc([BOS], block, false, false, start);
    WalkSnoc([BOS, block], EOS, false, false, start);
    UnionOne(ss);
  }

  lemma InParensValid(st: State, root: Node, v: string)
    requires InParens(st, root, v)
    ensures st.Valid()
  {
  }

  lemma ClosedValid(st: State, root: Node, paren: Node, v: string)
    requires ParensClosed(st, root, paren, v)
    ensures st.Valid() && paren.Block? && paren.kind == Paren && paren.own.None? && !paren.invalid && !paren.dollar
    ensures Leaves(paren.nodes) && StringifyAll(paren.nodes) == v && v != ""
  {
  }

  lemma ParensPlain(t: string, c: char)
    requires (forall k :: 0 <= k < |t| ==> IsLiteral(t[k])) && IsLiteral(c)
    ensures AllPlain("{(" + t + ")" + ("," + [c] + "}"))
  {
  }
}
