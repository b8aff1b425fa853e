/** Brace patterns as structure: what they look like as text, what strings they stand for,
    and the tree the parser builds for them. */
module BracePattern {
  import opened Prelude
  import opened BraceAst
  import opened BraceParser
  import opened BraceRoundTrip

  /** A pattern is a run of characters and braces; a brace is a list of alternatives. */
  datatype Pattern = Nil | Char(c: char, rest: Pattern) | Group(alts: Alts, rest: Pattern)
  datatype Alts = Last(p: Pattern) | More(p: Pattern, others: Alts)

  // --- text ---

  function Text(p: Pattern): (s: string) {
    match p
    case Nil => ""
    case Char(c, rest) => [c] + Text(rest)
    case Group(alts, rest) => "{" + AltsText(alts) + "}" + Text(rest)
  }

  function AltsText(alts: Alts): (s: string) {
    match alts
    case Last(p) => Text(p)
    case More(p, others) => Text(p) + "," + AltsText(others)
  }

  // --- meaning ---

  /** Every string of `a` followed by every string of `b`, `a` varying slowest. */
  function Cross(a: seq<string>, b: seq<string>): (r: seq<string>)
    ensures |r| == |a| * |b|
  {
    if |a| == 0 then [] else
      assert (|a| - 1) * |b| + |b| == |a| * |b|;
      Prefixed(a[0], b) + Cross(a[1..], b)
  }

  function Prefixed(s: string, b: seq<string>): (r: seq<string>)
    ensures |r| == |b|
  {
    seq(|b|, i requires 0 <= i < |b| => s + b[i])
  }

  /** Every string of `ss` between braces. */
  function Braced(ss: seq<string>): (r: seq<string>)
    ensures |r| == |ss|
  {
    seq(|ss|, i requires 0 <= i < |ss| => "{" + ss[i] + "}")
  }

  /** The strings a pattern stands for, in left-to-right order. A brace stands for its
      alternatives; if it has only one, the braces are part of the text. */
  function Denote(p: Pattern): (r: seq<string>)
    decreases p, 0
  {
    match p
    case Nil => [""]
    case Char(c, rest) => Prefixed([c], Denote(rest))
    case Group(alts, rest) => Cross(DenoteGroup(alts), Denote(rest))
  }

  function DenoteGroup(alts: Alts): (r: seq<string>)
    decreases alts, 1
  {
    match alts
    case Last(_) => Braced(DenoteAlts(alts))
    case More(_, _) => DenoteAlts(alts)
  }

  function DenoteAlts(alts: Alts): (r: seq<string>)
    decreases alts, 0
  {
    match alts
    case Last(p) => Denote(p)
    case More(p, others) => Denote(p) + DenoteAlts(others)
  }

  // --- the patterns considered ---

  /** Characters that stand for themselves. */
  predicate IsLiteral(c: char) {
    !IsIgnored(c) && !IsQuote(c) && c !in {'\\', '[', ']', '(', ')', '{', '}', '.', '$'}
  }

  /** Plain text and balanced braces. A comma outside all braces is plain text. */
  predicate WellFormed(p: Pattern, top: bool) {
    match p
    case Nil => true
    case Char(c, rest) => IsLiteral(c) && (c == ',' ==> top) && WellFormed(rest, top)
    case Group(alts, rest) => WellFormedAlts(alts) && WellFormed(rest, top)
  }

  predicate WellFormedAlts(alts: Alts) {
    match alts
    case Last(p) => WellFormed(p, false)
    case More(p, others) => WellFormed(p, false) && WellFormedAlts(others)
  }

  // --- the parser's tree ---

  function CountCommas(alts: Alts): (n: nat) {
    if alts.Last? then 0 else 1 + CountCommas(alts.others)
  }

  /** A character joins a text leaf at the end or starts a new one. */
  function AddChar(nodes: seq<Node>, c: char): (r: seq<Node>)
    ensures |r| > 0 && r[|r| - 1].Leaf?
  {
    if |nodes| > 0 && nodes[|nodes| - 1].Leaf? && nodes[|nodes| - 1].kind == Kind.Text then
      var last := nodes[|nodes| - 1];
      nodes[..|nodes| - 1] + [Leaf(Kind.Text, last.value + [c], last.afterComma, last.invalid)]
    else
      nodes + [Leaf(Kind.Text, [c], AfterComma(nodes), false)]
  }

  predicate AfterComma(nodes: seq<Node>) {
    |nodes| > 0 && nodes[|nodes| - 1].Leaf? && nodes[|nodes| - 1].kind == Comma
  }

  function AddComma(nodes: seq<Node>): (r: seq<Node>) {
    nodes + [Leaf(Comma, ",", AfterComma(nodes), false)]
  }

  /** Children after those a pattern adds. */
  function Extend(nodes: seq<Node>, p: Pattern): (r: seq<Node>)
    decreases p, 0
  {
    match p
    case Nil => nodes
    case Char(c, rest) => Extend(AddChar(nodes, c), rest)
    case Group(alts, rest) => Extend(nodes + [BraceNode(alts)], rest)
  }

  function ExtendAlts(nodes: seq<Node>, alts: Alts): (r: seq<Node>)
    decreases alts, 0
  {
    match alts
    case Last(p) => Extend(nodes, p)
    case More(p, others) => ExtendAlts(AddComma(Extend(nodes, p)), others)
  }

  const OPEN: Node := Leaf(Open, "{", false, false)
  const BOS: Node := Leaf(Bos, "", false, false)
  const EOS: Node := Leaf(Eos, "", false, false)

  function BraceNode(alts: Alts): (b: Node)
    ensures b.Block?
    decreases alts, 1
  {
    var nodes := ExtendAlts([OPEN], alts);
    Block(Brace, None, nodes + [Leaf(Close, "}", AfterComma(nodes), false)], true, false, CountCommas(alts), 0, false)
  }

  /** The tree of a whole pattern. */
  function TreeOf(p: Pattern): (root: Node)
    ensures root.Block?
  {
    Block(Root, None, Extend([BOS], p) + [EOS], false, false, 0, 0, false)
  }

  // --- the parser builds that tree ---

  /** The innermost block's children end in a leaf or in a closed brace, and no node the
      parser last touched ends in '$'. */
  predicate Ready(st: State) {
    && st.Valid() && !st.onBlock && ReadyNodes(st.Top().nodes)
    && !st.Top().dollar && st.Top().kind in {Root, Brace} && st.Top().ranges == 0
    && (st.Top().kind == Root <==> |st.stack| == 1) && st.depth == |st.stack| - 1
  }

  predicate ReadyNodes(nodes: seq<Node>) {
    && |nodes| > 0
    && var last := nodes[|nodes| - 1];
       if last.Leaf? then last.kind in {Bos, Open, Comma, Kind.Text} && NoDollar(last.value)
       else EndsInClose(last)
  }

  predicate NoDollar(v: string) {
    v == "" || v[|v| - 1] != '$'
  }

  predicate EndsInClose(b: Node) {
    && b.Block? && |b.nodes| > 0
    && b.nodes[|b.nodes| - 1].Leaf? && b.nodes[|b.nodes| - 1].kind == Close && b.nodes[|b.nodes| - 1].value == "}"
  }

  function WithNodes(st: State, nodes: seq<Node>): (r: State)
    requires st.Valid()
    ensures r.Valid()
  {
    var top := st.Top();
    st.WithTop(top.(nodes := nodes))
  }

  lemma Touched(st: State)
    requires Ready(st)
    ensures var nodes := st.Top().nodes;
      && (AfterComma(nodes) <==> PrevKind(st) == Comma)
      && (PrevKind(st) == Kind.Text <==> nodes[|nodes| - 1].Leaf? && nodes[|nodes| - 1].kind == Kind.Text)
      && (nodes[|nodes| - 1].Block? ==> PrevKind(st) == Close)
      && PrevKind(st) != Dot && NoDollar(PrevValue(st))
  {
    var nodes := st.Top().nodes;
    var last := nodes[|nodes| - 1];
    if last.Block? {
      assert LastLeaf(nodes) == LastLeaf(last.nodes) == Some(last.nodes[|last.nodes| - 1]);
    }
  }

  lemma StepChar(st: State, c: char)
    requires Ready(st) && IsLiteral(c) && (c == ',' ==> |st.stack| == 1)
    ensures Step(st, c) == WithNodes(st, AddChar(st.Top().nodes, c))
    ensures Ready(Step(st, c))
  {
    Touched(st);
  }

  lemma StepComma(st: State)
    requires Ready(st) && |st.stack| > 1
    ensures var top := st.Top();
      Step(st, ',') == st.WithTop(top.(nodes := AddComma(top.nodes), commas := top.commas + 1))
    ensures Ready(Step(st, ','))
  {
    Touched(st);
  }

  lemma StepOpen(st: State)
    requires Ready(st)
    ensures Step(st, '{') == State(st.stack + [Block(Brace, None, [OPEN], false, false, 0, 0, false)],
                                   false, st.depth + 1, st.brackets)
    ensures Ready(Step(st, '{'))
  {
    Touched(st);
    assert NewBlock(Brace, false).nodes + [OPEN] == [OPEN];
  }

  /** Characters processed one by one. */
  function Steps(st: State, t: string): (r: State)
    requires st.Valid()
    ensures r.Valid()
    decreases |t|
  {
    if |t| == 0 then st else Steps(Step(st, t[0]), t[1..])
  }

  lemma {:induction false} StepsConcat(st: State, t: string, u: string)
    requires st.Valid()
    ensures Steps(st, t + u) == Steps(Steps(st, t), u)
    decreases |t|
  {
    hide Step;
    if |t| == 0 {
      assert t + u == u;
    } else {
      assert (t + u)[1..] == t[1..] + u;
      StepsConcat(Step(st, t[0]), t[1..], u);
    }
  }

  lemma {:induction false} StepsOne(st: State, c: char)
    requires st.Valid()
    ensures Steps(st, [c]) == Step(st, c)
  {
    hide Step;
    assert [c][1..] == [];
  }

  /** A pattern's text adds the pattern's nodes to the innermost block. */
  lemma {:induction false} PatternSteps(st: State, p: Pattern)
    requires Ready(st) && WellFormed(p, |st.stack| == 1)
    ensures Steps(st, Text(p)) == WithNodes(st, Extend(st.Top().nodes, p))
    ensures Ready(Steps(st, Text(p)))
    decreases p, 0
  {
    hide Step, Ready;
    ReadyValid(st);
    var nodes := st.Top().nodes;
    match p
    case Nil =>
      assert st.stack[..|st.stack| - 1] + [st.Top()] == st.stack;
    case Char(c, rest) =>
      StepChar(st, c);
      StepsConcat(st, [c], Text(rest));
      StepsOne(st, c);
      NodesTwice(st, AddChar(nodes, c), Extend(AddChar(nodes, c), rest));
      PatternSteps(Step(st, c), rest);
    case Group(alts, rest) =>
      GroupSteps(st, alts);
      var text := "{" + AltsText(alts) + "}";
      assert Text(p) == text + Text(rest);
      StepsConcat(st, text, Text(rest));
      NodesTwice(st, nodes + [BraceNode(alts)], Extend(nodes + [BraceNode(alts)], rest));
      PatternSteps(Steps(st, text), rest);
  }

  lemma ReadyValid(st: State)
    requires Ready(st)
    ensures st.Valid()
  {
  }

  lemma NodesTwice(st: State, a: seq<Node>, b: seq<Node>)
    requires st.Valid()
    ensures WithNodes(WithNodes(st, a), b) == WithNodes(st, b)
    ensures WithNodes(st, a).Top().nodes == a && |WithNodes(st, a).stack| == |st.stack|
  {
  }

  /** Alternatives add their nodes and commas to the innermost brace. */
  lemma {:induction false} AltsSteps(st: State, alts: Alts)
    requires Ready(st) && |st.stack| > 1 && WellFormedAlts(alts)
    ensures var top := st.Top();
      Steps(st, AltsText(alts))
        == st.WithTop(top.(nodes := ExtendAlts(top.nodes, alts), commas := top.commas + CountCommas(alts)))
    ensures Ready(Steps(st, AltsText(alts)))
    decreases alts, 0
  {
    hide Step, Ready;
    ReadyValid(st);
    var top := st.Top();
    match alts
    case Last(p) =>
      PatternSteps(st, p);
    case More(p, others) =>
      var a := Steps(st, Text(p));
      PatternSteps(st, p);
      NodesTwice(st, Extend(top.nodes, p), []);
      StepComma(a);
      StepsConcat(st, Text(p) + ",", AltsText(others));
      StepsConcat(st, Text(p), ",");
      StepsOne(a, ',');
      AltsSteps(Step(a, ','), others);
  }

  /** A brace's text adds one closed brace node. */
  lemma {:induction false} GroupSteps(st: State, alts: Alts)
    requires Ready(st) && WellFormedAlts(alts)
    ensures Steps(st, "{" + AltsText(alts) + "}") == WithNodes(st, st.Top().nodes + [BraceNode(alts)])
    ensures Ready(Steps(st, "{" + AltsText(alts) + "}"))
    decreases alts, 1
  {
    hide Step, Ready;
    ReadyValid(st);
    StepOpen(st);
    var inner := Step(st, '{');
    AltsSteps(inner, alts);
    var full := Steps(inner, AltsText(alts));
    StepsConcat(st, "{" + AltsText(alts), "}");
    StepsConcat(st, "{", AltsText(alts));
    StepsOne(st, '{');
    StepsOne(full, '}');
    StepClose(st, alts, full);
  }

  lemma {:induction false} StepClose(st: State, alts: Alts, full: State)
    requires Ready(st) && Ready(full)
    requires full == State(st.stack + [Block(Brace, None, ExtendAlts([OPEN], alts), false, false,
                                             CountCommas(alts), 0, false)],
                           false, st.depth + 1, st.brackets)
    ensures Step(full, '}') == WithNodes(st, st.Top().nodes + [BraceNode(alts)])
    ensures Ready(Step(full, '}'))
  {
    hide ExtendAlts, PushText, PushComma, OpenBrace, OpenParen, CloseParen, PushDot;
    Touched(full);
  }

  lemma {:induction false} RunIsSteps(st: State, s: string, i: nat)
    requires st.Valid() && AllPlain(s) && i <= |s|
    ensures Run(st, s, i) == Steps(st, s[i..])
    decreases |s| - i
  {
    hide Step;
    if i < |s| {
      assert IsPlain(s[i]);
      RunIsSteps(Step(st, s[i]), s, i + 1);
      assert s[i..][1..] == s[i + 1..];
    }
  }

  lemma {:induction false} TextIsPlain(p: Pattern, top: bool)
    requires WellFormed(p, top)
    ensures AllPlain(Text(p))
  {
    match p
    case Nil =>
    case Char(c, rest) => TextIsPlain(rest, top);
    case Group(alts, rest) =>
      AltsTextIsPlain(alts);
      TextIsPlain(rest, top);
  }

  lemma {:induction false} AltsTextIsPlain(alts: Alts)
    requires WellFormedAlts(alts)
    ensures AllPlain(AltsText(alts))
  {
    match alts
    case Last(p) => TextIsPlain(p, false);
    case More(p, others) =>
      TextIsPlain(p, false);
      AltsTextIsPlain(others);
  }

  /** The parser builds exactly the pattern's tree. */
  lemma {:induction false} ParsesToTree(p: Pattern)
    requires WellFormed(p, true)
    ensures Tree(Run(Initial(), Text(p), 0)) == TreeOf(p)
  {
    hide Step, Extend, Text, AllPlain;
    var st := Initial();
    TextIsPlain(p, true);
    RunIsSteps(st, Text(p), 0);
    assert Text(p)[0..] == Text(p);
    PatternSteps(st, p);
    assert st.stack[..0] == [];
  }

  // --- a pattern that is garbled ---

  lemma {:induction false} GarblesLater(st: State, t: string, u: string)
    requires st.Valid() && GarblesIn(Steps(st, t), u)
    ensures GarblesIn(st, t + u)
    decreases |t|
  {
    hide Step, Garbles;
    if |t| == 0 {
      assert t + u == u;
    } else {
      assert (t + u)[1..] == t[1..] + u;
      GarblesLater(Step(st, t[0]), t[1..], u);
    }
  }

  /** A closed brace followed by three dots inside a brace. */
  lemma {:induction false} DotsAfterBlock(st: State)
    requires Ready(st) && st.depth > 0 && st.Top().commas == 0
    requires |st.Top().nodes| == 2 && st.Top().nodes[1].Block? && st.Top().nodes[1].own.None?
    ensures GarblesIn(st, "...")
  {
    Touched(st);
    var a := Step(st, '.');
    DotOnce(st, a);
    var b := Step(a, '.');
    DotTwice(a, b);
    assert GarblesIn(b, ".");
    assert "..."[1..] == ".." && ".."[1..] == ".";
    assert GarblesIn(a, "..");
  }

  lemma DotOnce(st: State, a: State)
    requires Ready(st) && st.depth > 0 && st.Top().commas == 0 && a == Step(st, '.')
    requires |st.Top().nodes| == 2 && st.Top().nodes[1].Block?
    ensures a == WithNodes(st, st.Top().nodes + [Leaf(Dot, ".", false, false)])
    ensures PrevKind(a) == Dot
  {
    Touched(st);
  }

  lemma DotTwice(a: State, b: State)
    requires a.Valid() && !a.onBlock && a.depth > 0 && a.Top().kind == Brace && a.Top().commas == 0
    requires |a.Top().nodes| == 3 && a.Top().nodes[2] == Leaf(Dot, ".", false, false)
    requires a.Top().nodes[1].Block? && a.Top().nodes[1].own.None?
    requires b == Step(a, '.')
    ensures Garbles(b, '.')
  {
    assert PrevKind(a) == Dot;
    assert b.Top().nodes[2] == Leaf(Range, "..", false, false);
  }

  /** The shortest garbled input: a brace, a closed brace, three dots; it is printed back
      as "{undefined...". */
  lemma GarbledExample()
    ensures AllPlain("{{a}...") && GarblesIn(Initial(), "{{a}...")
    ensures Stringify(Tree(Run(Initial(), "{{a}...", 0))) != "{{a}..."
  {
    hide Step, Tree, Run, Garbles, GarblesIn, Steps;
    AfterBlock();
    DotsAfterBlock(Steps(Initial(), "{{a}"));
    assert "{{a}" + "..." == "{{a}...";
    GarblesLater(Initial(), "{{a}", "...");
    PrintUndoesParse("{{a}...");
  }

  lemma AfterBlock()
    ensures var full := Steps(Initial(), "{{a}");
      && Ready(full) && full.depth > 0 && full.Top().commas == 0
      && |full.Top().nodes| == 2 && full.Top().nodes[1].Block? && full.Top().nodes[1].own.None?
  {
    hide Step, BraceNode, Steps, Ready;
    var alts := Alts.Last(Char('a', Nil));
    var st := Step(Initial(), '{');
    FirstBrace();
    GroupSteps(st, alts);
    assert AltsText(alts) == "a";
    assert "{" + AltsText(alts) + "}" == "{a}";
    assert "{" + "{a}" == "{{a}";
    StepsConcat(Initial(), "{", "{a}");
    StepsOne(Initial(), '{');
    BraceNodePlain(alts);
  }

  lemma FirstBrace()
    ensures var st := Step(Initial(), '{');
      Ready(st) && st.depth == 1 && st.Top() == Block(Brace, None, [OPEN], false, false, 0, 0, false)
  {
    StepOpen(Initial());
  }

  lemma {:induction false} BraceNodePlain(alts: Alts)
    ensures BraceNode(alts).own.None?
  {
  }
}
