/** Printing undoes parsing, and exactly when it does not. */
module BraceRoundTrip {
  import opened Prelude
  import opened BraceAst
  import opened BraceParser

  /** Text of everything parsed so far, in document order. */
  function Printed(stack: seq<Node>): (s: string)
    requires forall i :: 0 <= i < |stack| ==> stack[i].Block?
  {
    if |stack| == 0 then "" else Printed(stack[..|stack| - 1]) + StringifyAll(stack[|stack| - 1].nodes)
  }

  /** The characters the parser takes as they are. */
  predicate IsPlain(c: char) {
    !IsIgnored(c) && !IsQuote(c) && c != '\\' && c != '[' && c != ']'
  }

  predicate AllPlain(s: string) {
    forall i :: 0 <= i < |s| ==> IsPlain(s[i])
  }

  /** The one branch that garbles text: a third dot after a range whose left neighbour is
      a closed block, which has no value to append to. */
  predicate Garbles(st: State, c: char)
    requires st.Valid()
  {
    && c == '.' && st.depth > 0 && st.Top().kind == Brace && st.Top().commas == 0
    && PrevKind(st) == Range
    && |st.Top().nodes| >= 2
    && var before := st.Top().nodes[|st.Top().nodes| - 2]; before.Block? && before.own.None?
  }

  /** The parser takes that branch somewhere in `s`. */
  predicate GarblesIn(st: State, s: string)
    requires st.Valid()
    decreases |s|
  {
    |s| > 0 && (Garbles(st, s[0]) || GarblesIn(Step(st, s[0]), s[1..]))
  }

  // --- what every state keeps ---

  predicate IsOpener(c: char) {
    c == '{' || c == '('
  }

  /** The block's first child is a leaf that starts with its opening character. */
  predicate Headed(b: Node) {
    && b.Block? && (b.kind == Brace || b.kind == Paren)
    && |b.nodes| > 0 && b.nodes[0].Leaf?
    && b.nodes[0].value != "" && IsOpener(b.nodes[0].value[0])
  }

  predicate ChildOk(child: Node) {
    child.Block? ==> Headed(child) && (child.own.Some? ==> child.own.value != "")
  }

  predicate ChildrenOk(nodes: seq<Node>) {
    forall i :: 0 <= i < |nodes| ==> ChildOk(nodes[i])
  }

  /** The chain of last children ends in a leaf and passes only through blocks that print
      their children. */
  predicate ChainClear(nodes: seq<Node>) {
    |nodes| > 0 &&
    match nodes[|nodes| - 1]
    case Leaf(_, _, _, _) => true
    case Block(_, own, inner, _, _, _, _, _) => own.None? && ChainClear(inner)
  }

  predicate BlockOk(b: Node) {
    b.Block? && b.own.None? && |b.nodes| > 0 && ChildrenOk(b.nodes)
  }

  predicate IsDots(k: Kind) {
    k == Dot || k == Range
  }

  /** Where the node last touched may be: a closed block at the end, or the last leaf. A
      dot or a range stands in the block itself, not after another one, and a range after
      at least two nodes. */
  predicate TouchOk(nodes: seq<Node>, onBlock: bool) {
    && |nodes| > 0
    && (if onBlock then nodes[|nodes| - 1].Block? else ChainClear(nodes))
    && (IsDots(KindOf(nodes, onBlock)) ==>
          nodes[|nodes| - 1].Leaf? && |nodes| >= 2 && !IsDots(nodes[|nodes| - 2].kind))
    && (KindOf(nodes, onBlock) == Range ==> |nodes| >= 3)
  }

  predicate Inv(st: State) {
    && st.Valid()
    && (forall i :: 0 <= i < |st.stack| ==> BlockOk(st.stack[i]))
    && (forall i :: 1 <= i < |st.stack| ==> Headed(st.stack[i]))
    && TouchOk(st.Top().nodes, st.onBlock)
  }

  lemma {:induction false} ChainHasLeaf(nodes: seq<Node>)
    requires ChainClear(nodes)
    ensures LastLeaf(nodes).Some?
  {
    if nodes[|nodes| - 1].Block? {
      ChainHasLeaf(nodes[|nodes| - 1].nodes);
    }
  }

  /** Extending the last leaf appends to the printed text. */
  lemma {:induction false} ExtendLeafPrints(nodes: seq<Node>, kind: Kind, more: string)
    requires ChainClear(nodes)
    ensures StringifyAll(ExtendLeaf(nodes, kind, more)) == StringifyAll(nodes) + more
  {
    hide StringifyAll;
    var n := |nodes|;
    var last := nodes[n - 1];
    var init := nodes[..n - 1];
    assert nodes == init + [last];
    StringifySnoc(init, last);
    match last
    case Leaf(_, value, _, _) =>
      StringifySnoc(init, last.(kind := kind, value := value + more));
    case Block(_, _, inner, _, _, _, _, _) =>
      ExtendLeafPrints(inner, kind, more);
      StringifySnoc(init, last.(nodes := ExtendLeaf(inner, kind, more)));
  }

  lemma {:induction false} ExtendLeafChain(nodes: seq<Node>, kind: Kind, more: string)
    requires ChainClear(nodes)
    ensures var r := ExtendLeaf(nodes, kind, more);
      && |r| == |nodes| && ChainClear(r) && LastLeaf(r).Some? && LastLeaf(r).value.kind == kind
      && r[..|r| - 1] == nodes[..|nodes| - 1]
      && (nodes[|nodes| - 1].Leaf? ==> r[|r| - 1].Leaf?)
  {
    match nodes[|nodes| - 1]
    case Leaf(_, _, _, _) =>
    case Block(_, _, inner, _, _, _, _, _) => ExtendLeafChain(inner, kind, more);
  }

  lemma {:induction false} ExtendLeafChildren(nodes: seq<Node>, kind: Kind, more: string)
    requires ChainClear(nodes) && ChildrenOk(nodes)
    ensures ChildrenOk(ExtendLeaf(nodes, kind, more))
    ensures nodes[0].Leaf? && nodes[0].value != "" && IsOpener(nodes[0].value[0]) ==>
      var first := ExtendLeaf(nodes, kind, more)[0];
      first.Leaf? && first.value != "" && first.value[0] == nodes[0].value[0]
  {
    var r := ExtendLeaf(nodes, kind, more);
    match nodes[|nodes| - 1]
    case Leaf(_, _, _, _) =>
    case Block(_, _, inner, _, _, _, _, _) =>
      HeadedExtends(inner, kind, more);
  }

  lemma {:induction false} HeadedExtends(nodes: seq<Node>, kind: Kind, more: string)
    requires ChainClear(nodes)
    ensures nodes[0].Leaf? && nodes[0].value != "" && IsOpener(nodes[0].value[0]) ==>
      var first := ExtendLeaf(nodes, kind, more)[0];
      first.Leaf? && first.value != "" && first.value[0] == nodes[0].value[0]
  {
  }

  // --- replacing the innermost block ---

  lemma PrintedTop(st: State)
    requires st.Valid()
    ensures Printed(st.stack) == Printed(st.stack[..|st.stack| - 1]) + StringifyAll(st.Top().nodes)
  {
  }

  /** Replacing the innermost block by one in order keeps the invariant. */
  lemma ReplaceTop(st: State, b: Node, onBlock: bool)
    requires Inv(st) && b.Block? && BlockOk(b) && TouchOk(b.nodes, onBlock)
    requires Headed(st.Top()) ==> Headed(b)
    ensures var r := st.WithTop(b).(onBlock := onBlock);
      && Inv(r)
      && Printed(r.stack) == Printed(st.stack[..|st.stack| - 1]) + StringifyAll(b.nodes)
      && PrevKind(r) == KindOf(b.nodes, onBlock)
  {
    hide BlockOk, Headed, TouchOk, Printed, KindOf;
    var r, n := st.WithTop(b).(onBlock := onBlock), |st.stack|;
    PrintedTop(r);
    assert r.Top() == b;
    assert r.stack[..n - 1] == st.stack[..n - 1];
    forall i | 0 <= i < n - 1 ensures BlockOk(r.stack[i]) && (i > 0 ==> Headed(r.stack[i])) {
      assert r.stack[i] == st.stack[i];
    }
  }

  lemma TopIsOk(st: State)
    requires Inv(st)
    ensures BlockOk(st.Top()) && (|st.stack| > 1 ==> Headed(st.Top()))
    ensures TouchOk(st.Top().nodes, st.onBlock)
  {
  }

  // --- pushing ---

  lemma AddChild(top: Node, child: Node)
    requires top.Block? && top.own.None? && ChildrenOk(top.nodes) && ChildOk(child)
    ensures var b := top.(nodes := top.nodes + [child]);
      && BlockOk(b)
      && (Headed(top) ==> Headed(b))
      && (child.Leaf? && !IsDots(child.kind) ==>
            TouchOk(b.nodes, false) && KindOf(b.nodes, false) == child.kind)
      && (child.Block? && child.own.None? && ChainClear(child.nodes) ==> ChainClear(b.nodes))
  {
  }

  lemma AddDot(top: Node, onBlock: bool, dot: Node)
    requires BlockOk(top) && TouchOk(top.nodes, onBlock) && !IsDots(KindOf(top.nodes, onBlock))
    requires dot.Leaf? && dot.kind == Dot
    ensures TouchOk(top.nodes + [dot], false) && KindOf(top.nodes + [dot], false) == Dot
  {
    assert ChildOk(top.nodes[|top.nodes| - 1]);
  }

  lemma LeafIsChild(leaf: Node)
    requires leaf.Leaf?
    ensures ChildOk(leaf)
  {
  }

  lemma BlockParts(b: Node)
    ensures BlockOk(b) <==> b.Block? && b.own.None? && |b.nodes| > 0 && ChildrenOk(b.nodes)
  {
  }

  lemma PushLeafKeeps(st: State, kind: Kind, value: string)
    requires Inv(st) && kind != Range && (kind == Dot ==> !IsDots(PrevKind(st)))
    ensures Inv(PushLeaf(st, kind, value)) && PrevKind(PushLeaf(st, kind, value)) == kind
    ensures Printed(PushLeaf(st, kind, value).stack) == Printed(st.stack) + value
  {
    hide BlockOk, Headed, TouchOk, ChildOk, KindOf;
    var top := st.Top();
    var leaf := Leaf(kind, value, PrevKind(st) == Comma, false);
    LeafIsChild(leaf);
    BlockParts(top);
    TopIsOk(st);
    AddChild(top, leaf);
    if kind == Dot {
      AddDot(top, st.onBlock, leaf);
    }
    StringifySnoc(top.nodes, leaf);
    ReplaceTop(st, top.(nodes := top.nodes + [leaf]), false);
    PrintedTop(st);
  }

  /** The node last touched is a leaf unless a closed block was. */
  lemma LeafTouched(st: State)
    requires Inv(st) && st.onBlock
    ensures PrevKind(st) == Brace || PrevKind(st) == Paren
  {
    var nodes := st.Top().nodes;
    assert ChildOk(nodes[|nodes| - 1]);
  }

  lemma PushTextKeeps(st: State, value: string)
    requires Inv(st)
    ensures Inv(PushText(st, value)) && Printed(PushText(st, value).stack) == Printed(st.stack) + value
  {
    if st.onBlock {
      LeafTouched(st);
    }
    if PrevKind(st) == Text || PrevKind(st) == Dot {
      ExtendKeeps(st, st.Top(), Text, value);
    } else {
      PushLeafKeeps(st, Text, value);
    }
  }

  lemma {:induction false} ExtendTop(top: Node, kind: Kind, more: string)
    requires BlockOk(top) && ChainClear(top.nodes)
    ensures var b := top.(nodes := ExtendLeaf(top.nodes, kind, more));
      BlockOk(b) && ChainClear(b.nodes) && (Headed(top) ==> Headed(b))
  {
    hide ChainClear, ChildOk;
    ExtendLeafChain(top.nodes, kind, more);
    ExtendLeafChildren(top.nodes, kind, more);
  }

  lemma {:induction false} ExtendKeeps(st: State, top: Node, kind: Kind, more: string)
    requires Inv(st) && !st.onBlock && top == st.Top()
    requires kind == Text || (kind == Range && PrevKind(st) == Dot && |top.nodes| >= 3)
    ensures var r := st.WithTop(top.(nodes := ExtendLeaf(top.nodes, kind, more)));
      Inv(r) && Printed(r.stack) == Printed(st.stack) + more && PrevKind(r) == kind
  {
    hide ChainClear, BlockOk, Headed, ExtendLeaf;
    var b := top.(nodes := ExtendLeaf(top.nodes, kind, more));
    TopIsOk(st);
    ExtendLeafPrints(top.nodes, kind, more);
    ExtendLeafChain(top.nodes, kind, more);
    ExtendTop(top, kind, more);
    ReplaceTop(st, b, false);
    PrintedTop(st);
  }

  /** Changing a block's counters and flags only. */
  lemma FlagsKeep(st: State, b: Node)
    requires Inv(st) && b.Block? && b.own == st.Top().own && b.nodes == st.Top().nodes && b.kind == st.Top().kind
    ensures var r := st.WithTop(b);
      Inv(r) && Printed(r.stack) == Printed(st.stack) && PrevKind(r) == PrevKind(st)
  {
    hide ChainClear, TouchOk;
    TopIsOk(st);
    ReplaceTop(st, b, st.onBlock);
    PrintedTop(st);
  }

  // --- opening and closing ---

  /** A fresh innermost block holding just its opening leaf. */
  lemma OpenKeeps(st: State, b: Node, leaf: Node, depth: int)
    requires Inv(st) && b.Block? && b.own.None? && (b.kind == Brace || b.kind == Paren)
    requires leaf.Leaf? && leaf.kind != Range && leaf.kind != Dot && leaf.value != "" && IsOpener(leaf.value[0])
    ensures var r := State(st.stack + [b.(nodes := [leaf])], false, depth, st.brackets);
      Inv(r) && Printed(r.stack) == Printed(st.stack) + leaf.value
  {
    var block := b.(nodes := [leaf]);
    var r := State(st.stack + [block], false, depth, st.brackets);
    StringifyOne(leaf);
    assert r.stack[..|r.stack| - 1] == st.stack;
    assert Headed(block) && BlockOk(block);
    forall i | 0 <= i < |st.stack| ensures BlockOk(r.stack[i]) && (i > 0 ==> Headed(r.stack[i])) {
      assert r.stack[i] == st.stack[i];
    }
  }

  lemma OpenBraceKeeps(st: State)
    requires Inv(st)
    ensures Inv(OpenBrace(st)) && Printed(OpenBrace(st).stack) == Printed(st.stack) + "{"
  {
    hide Printed, BlockOk, Headed;
    var v := PrevValue(st);
    var b := NewBlock(Brace, (v != "" && v[|v| - 1] == '$') || st.Top().dollar);
    var leaf := Leaf(Open, "{", false, false);
    OpenKeeps(st, b, leaf, st.depth + 1);
    assert OpenBrace(st).stack == st.stack + [b.(nodes := [leaf])] by {
      assert b.nodes + [leaf] == [leaf];
    }
  }

  lemma OpenParenKeeps(st: State)
    requires Inv(st)
    ensures Inv(OpenParen(st)) && Printed(OpenParen(st).stack) == Printed(st.stack) + "("
  {
    hide Printed, BlockOk, Headed;
    var b := NewBlock(Paren, false);
    var leaf := Leaf(Text, "(", false, false);
    OpenKeeps(st, b, leaf, st.depth);
    assert OpenParen(st).stack == st.stack + [b.(nodes := [leaf])] by {
      assert b.nodes + [leaf] == [leaf];
    }
  }

  /** Closing the innermost block moves it without changing the text. */
  lemma PopKeeps(st: State)
    requires Inv(st) && !st.onBlock && |st.stack| > 1 && PrevKind(st) != Range && PrevKind(st) != Dot
    ensures Inv(PopBlock(st)) && Printed(PopBlock(st).stack) == Printed(st.stack)
    ensures PrevKind(PopBlock(st)) == PrevKind(st)
  {
    hide ChainClear, Headed;
    var n := |st.stack|;
    var top, parent := st.Top(), st.stack[n - 2];
    var b := parent.(nodes := parent.nodes + [top]);
    var r := PopBlock(st);
    AddChild(parent, top);
    assert st.stack[..n - 1][..n - 2] == st.stack[..n - 2];
    assert r.stack[..n - 2] == st.stack[..n - 2];
    StringifySnoc(parent.nodes, top);
    assert Stringify(top) == StringifyAll(top.nodes);
    forall i | 0 <= i < n - 2 ensures BlockOk(r.stack[i]) && (i > 0 ==> Headed(r.stack[i])) {
      assert r.stack[i] == st.stack[i];
    }
  }

  lemma CloseBraceKeeps(st: State)
    requires Inv(st)
    ensures Inv(CloseBrace(st)) && Printed(CloseBrace(st).stack) == Printed(st.stack) + "}"
  {
    if st.Top().kind != Brace || |st.stack| == 1 {
      PushTextKeeps(st, "}");
    } else {
      PushLeafKeeps(st, Close, "}");
      var closing := PushLeaf(st, Close, "}");
      FlagsKeep(closing, closing.Top().(closed := true));
      PopKeeps(closing.WithTop(closing.Top().(closed := true)));
      DepthKeeps(PopBlock(closing.WithTop(closing.Top().(closed := true))), st.depth - 1);
    }
  }

  lemma DepthKeeps(st: State, depth: int)
    requires Inv(st)
    ensures Inv(st.(depth := depth))
  {
  }

  lemma CloseParenKeeps(st: State)
    requires Inv(st)
    ensures Inv(CloseParen(st)) && Printed(CloseParen(st).stack) == Printed(st.stack) + ")"
  {
    PushTextKeeps(st, ")");
    if st.Top().kind == Paren && |st.stack| > 1 {
      TextTouched(st, ")");
      PopKeeps(PushText(st, ")"));
    }
  }

  lemma TextTouched(st: State, value: string)
    requires Inv(st)
    ensures !PushText(st, value).onBlock && PrevKind(PushText(st, value)) == Text
  {
    if st.onBlock {
      LeafTouched(st);
    } else {
      ExtendLeafChain(st.Top().nodes, Text, value);
    }
  }

  // --- commas and dots ---

  /** Rewriting a range at a comma keeps its text. */
  lemma FlattenedTop(top: Node)
    requires BlockOk(top)
    ensures var b := top.(ranges := 0, nodes := [top.nodes[0], Leaf(Text, StringifyAll(top.nodes[1..]), false, false)]);
      && BlockOk(b) && TouchOk(b.nodes, false) && (Headed(top) ==> Headed(b))
      && StringifyAll(b.nodes) == StringifyAll(top.nodes)
  {
    var head, rest := top.nodes[0], top.nodes[1..];
    var text := Leaf(Text, StringifyAll(rest), false, false);
    assert top.nodes == [head] + rest;
    StringifyConcat([head], rest);
    StringifyOne(head);
    StringifySnoc([head], text);
    assert [head] + [text] == [head, text];
  }

  lemma FlattenKeeps(st: State)
    requires Inv(st)
    ensures var top := st.Top();
            |top.nodes| > 0 &&
            var b := top.(ranges := 0, nodes := [top.nodes[0], Leaf(Text, StringifyAll(top.nodes[1..]), false, false)]);
            var plain := st.WithTop(b).(onBlock := false);
            Inv(plain) && Printed(plain.stack) == Printed(st.stack)
  {
    hide ChainClear, Headed, Printed, BlockOk, TouchOk;
    var top := st.Top();
    TopIsOk(st);
    FlattenedTop(top);
    var b := top.(ranges := 0, nodes := [top.nodes[0], Leaf(Text, StringifyAll(top.nodes[1..]), false, false)]);
    ReplaceTop(st, b, false);
    PrintedTop(st);
  }

  lemma PlainCommaKeeps(st: State)
    requires Inv(st) && st.Top().ranges == 0
    ensures Inv(PushComma(st)) && Printed(PushComma(st).stack) == Printed(st.stack) + ","
  {
    hide ChainClear, Headed, Printed, BlockOk, TouchOk, StringifyAll;
    PushLeafKeeps(st, Comma, ",");
    if st.Top().kind == Brace {
      var pushed := PushLeaf(st, Comma, ",");
      FlagsKeep(pushed, pushed.Top().(commas := st.Top().commas + 1));
    }
  }

  lemma PushCommaKeeps(st: State)
    requires Inv(st)
    ensures Inv(PushComma(st)) && Printed(PushComma(st).stack) == Printed(st.stack) + ","
  {
    hide ChainClear, Headed, Printed, BlockOk, TouchOk, StringifyAll, PushLeaf;
    var top := st.Top();
    if top.ranges > 0 {
      FlattenKeeps(st);
      var b := top.(ranges := 0, nodes := [top.nodes[0], Leaf(Text, StringifyAll(top.nodes[1..]), false, false)]);
      var plain := st.WithTop(b).(onBlock := false);
      PlainCommaKeeps(plain);
      assert PushComma(st) == PushComma(plain);
    } else {
      PlainCommaKeeps(st);
    }
  }

  lemma SecondDotKeeps(st: State)
    requires Inv(st) && PrevKind(st) == Dot
    ensures Inv(SecondDot(st)) && Printed(SecondDot(st).stack) == Printed(st.stack) + "."
  {
    hide Inv, KindOf, Printed, ExtendLeaf;
    ValidInv(st);
    if st.onBlock {
      LeafTouched(st);
    }
    var top := st.Top();
    var kind := if |top.nodes| == 3 || |top.nodes| == 5 then Range else Text;
    ExtendKeeps(st, top, kind, ".");
    var more := top.(nodes := ExtendLeaf(top.nodes, kind, "."));
    FlagsKeep(st.WithTop(more),
              if kind == Range then more.(ranges := top.ranges + 1)
              else Block(more.kind, more.own, more.nodes, more.closed, more.dollar, more.commas, 0, true));
  }

  /** The innermost block once a third dot has undone its range. */
  function Undone(top: Node, text: string): (b: Node)
    requires top.Block? && |top.nodes| >= 2
    ensures b.Block?
  {
    var n := |top.nodes|;
    top.(nodes := top.nodes[..n - 2] + [AppendValue(top.nodes[n - 2], text)],
         ranges := if top.ranges > 0 then top.ranges - 1 else 0)
  }

  lemma UndoneOk(top: Node, text: string)
    requires BlockOk(top) && |top.nodes| >= 3 && text != ""
    ensures var b := Undone(top, text);
      && BlockOk(b) && (Headed(top) ==> Headed(b))
      && (b.nodes[|b.nodes| - 1].Leaf? ==> ChainClear(b.nodes))
  {
    var before := top.nodes[|top.nodes| - 2];
    assert ChildOk(before);
    assert ChildOk(AppendValue(before, text));
  }

  /** What a third dot does to the text: it is appended, unless the range follows a block
      without a value, whose text is then lost. */
  lemma UndonePrints(top: Node, c: string)
    requires BlockOk(top) && |top.nodes| >= 3 && top.nodes[|top.nodes| - 1].Leaf?
    ensures var n := |top.nodes|;
      var text := top.nodes[n - 1].value + c;
      var before := top.nodes[n - 2];
      StringifyAll(Undone(top, text).nodes) ==
        if before.Block? && before.own.None? then StringifyAll(top.nodes[..n - 2]) + "undefined" + text
        else StringifyAll(top.nodes) + c
  {
    var n := |top.nodes|;
    var init, before, last := top.nodes[..n - 2], top.nodes[n - 2], top.nodes[n - 1];
    var text := last.value + c;
    assert ChildOk(before);
    assert top.nodes == init + [before] + [last];
    StringifySnoc(init + [before], last);
    StringifySnoc(init, before);
    StringifySnoc(init, AppendValue(before, text));
    if !(before.Block? && before.own.None?) {
      assert Stringify(AppendValue(before, text)) == Stringify(before) + last.value + c;
    }
  }

  /** The innermost block when a range was touched last, and what a third dot makes of it. */
  lemma RangeTouched(st: State)
    requires Inv(st) && PrevKind(st) == Range
    ensures var nodes := st.Top().nodes;
      var n := |nodes|;
      && n >= 3 && nodes[n - 1].Leaf? && !IsDots(nodes[n - 2].kind)
      && var b := Undone(st.Top(), nodes[n - 1].value + ".");
         && |b.nodes| == n - 1 && (b.nodes[n - 2].Block? <==> nodes[n - 2].Block?)
         && ThirdDot(st) == st.WithTop(b).(onBlock := nodes[n - 2].Block?)
  {
    hide ChainClear, Headed, BlockOk;
    if st.onBlock {
      LeafTouched(st);
    }
    LastIsLeaf(st.Top().nodes);
  }

  /** A third dot is appended to the text unless this is the garbling branch. */
  lemma ThirdDotKeeps(st: State)
    requires Inv(st) && PrevKind(st) == Range
    ensures Inv(ThirdDot(st))
    ensures var n := |st.Top().nodes|;
      var before := st.Top().nodes[n - 2];
      if before.Block? && before.own.None? then
        Printed(st.stack[..|st.stack| - 1]) + StringifyAll(st.Top().nodes[..n - 2]) + "undefined"
        <= Printed(ThirdDot(st).stack)
      else Printed(ThirdDot(st).stack) == Printed(st.stack) + "."
  {
    hide Inv, ThirdDot, Undone, ChainClear, Headed, Printed, BlockOk, TouchOk, StringifyAll, KindOf;
    ValidInv(st);
    RangeTouched(st);
    TopIsOk(st);
    var top := st.Top();
    var n := |top.nodes|;
    var text := top.nodes[n - 1].value + ".";
    var b := Undone(top, text);
    UndoneOk(top, text);
    UndoneTouch(top, text);
    UndonePrints(top, ".");
    ReplaceTop(st, b, top.nodes[n - 2].Block?);
    PrintedTop(st);
    if top.nodes[n - 2].Block? && top.nodes[n - 2].own.None? {
      assert Printed(ThirdDot(st).stack)
          == Printed(st.stack[..|st.stack| - 1]) + StringifyAll(top.nodes[..n - 2]) + "undefined" + text;
    }
  }

  lemma {:induction false} LastIsLeaf(nodes: seq<Node>)
    requires |nodes| > 0 && nodes[|nodes| - 1].Leaf?
    ensures LastLeaf(nodes) == Some(nodes[|nodes| - 1])
  {
  }

  lemma UndoneTouch(top: Node, text: string)
    requires BlockOk(top) && |top.nodes| >= 3 && text != ""
    requires !IsDots(top.nodes[|top.nodes| - 2].kind)
    ensures var b := Undone(top, text);
      TouchOk(b.nodes, b.nodes[|b.nodes| - 1].Block?)
  {
    var before := top.nodes[|top.nodes| - 2];
    assert ChildOk(before);
  }

  // --- one character ---

  /** Text of everything before the block that a third dot would overwrite. */
  lemma OverwrittenStartsWithOpener(st: State) returns (q: nat)
    requires Inv(st) && PrevKind(st) == Range
    requires var before := st.Top().nodes[|st.Top().nodes| - 2]; before.Block? && before.own.None?
    ensures q < |Printed(st.stack)| && IsOpener(Printed(st.stack)[q])
    ensures Printed(st.stack)[..q]
         == Printed(st.stack[..|st.stack| - 1]) + StringifyAll(st.Top().nodes[..|st.Top().nodes| - 2])
  {
    hide ChainClear, Printed, TouchOk, Headed, StringifyAll;
    TopIsOk(st);
    var nodes := st.Top().nodes;
    var n := |nodes|;
    var init, before, last := nodes[..n - 2], nodes[n - 2], nodes[n - 1];
    assert nodes == init + [before] + [last];
    PrintedTop(st);
    StringifySnoc(init + [before], last);
    StringifySnoc(init, before);
    assert ChildOk(before);
    HeadedPrints(before);
    q := |Printed(st.stack[..|st.stack| - 1]) + StringifyAll(init)|;
  }

  lemma {:induction false} HeadedPrints(b: Node)
    requires Headed(b) && b.own.None?
    ensures Stringify(b) != "" && IsOpener(Stringify(b)[0])
  {
    var head, rest := b.nodes[0], b.nodes[1..];
    assert b.nodes == [head] + rest;
    StringifyConcat([head], rest);
    StringifyOne(head);
  }

  /** The text after one more character, when nothing is garbled. */
  lemma StepPrints(st: State, c: char)
    requires Inv(st) && !Garbles(st, c)
    ensures Inv(Step(st, c)) && Printed(Step(st, c).stack) == Printed(st.stack) + [c]
  {
    hide TouchOk, Printed, PushText, PushComma, OpenBrace, CloseBrace, OpenParen, CloseParen, SecondDot, ThirdDot,
        PushLeaf;
    if c == '(' {
      OpenParenKeeps(st);
    } else if c == ')' {
      CloseParenKeeps(st);
    } else if c == '{' {
      OpenBraceKeeps(st);
    } else if c == '}' {
      CloseBraceKeeps(st);
    } else if c == ',' && st.depth > 0 {
      PushCommaKeeps(st);
    } else if c == '.' && st.depth > 0 && st.Top().kind == Brace && st.Top().commas == 0 {
      DotPrints(st);
    } else {
      PushTextKeeps(st, [c]);
    }
  }

  lemma DotPrints(st: State)
    requires Inv(st) && st.depth > 0 && st.Top().kind == Brace && st.Top().commas == 0 && !Garbles(st, '.')
    ensures Inv(PushDot(st)) && Printed(PushDot(st).stack) == Printed(st.stack) + "."
  {
    hide Printed, SecondDot, ThirdDot, PushLeaf, ChainClear;
    TopIsOk(st);
    if PrevKind(st) == Dot {
      SecondDotKeeps(st);
    } else if PrevKind(st) == Range {
      ThirdDotKeeps(st);
    } else {
      PushLeafKeeps(st, Dot, ".");
    }
  }

  /** The garbling branch overwrites an opening character of the text by 'u'. */
  lemma StepGarbles(st: State, c: char) returns (q: nat)
    requires Inv(st) && Garbles(st, c)
    ensures Inv(Step(st, c))
    ensures q < |Printed(st.stack)| && IsOpener(Printed(st.stack)[q])
    ensures Printed(st.stack)[..q] + "undefined" <= Printed(Step(st, c).stack)
  {
    hide TouchOk, Printed, ThirdDot, ChainClear, BlockOk;
    ThirdDotKeeps(st);
    q := OverwrittenStartsWithOpener(st);
  }

  // --- whole inputs ---

  /** The text first departs from the input where the input opens a block and the text
      has the 'u' of "undefined". */
  ghost predicate Departs(text: string, input: string) {
    exists q :: 0 <= q < |text| && q < |input| && text[..q] == input[..q] && IsOpener(input[q]) && text[q] == 'u'
  }

  lemma DepartureStays(text: string, input: string, c: char)
    requires Departs(text, input)
    ensures Departs(text + [c], input + [c])
  {
    var q :| 0 <= q < |text| && q < |input| && text[..q] == input[..q] && IsOpener(input[q]) && text[q] == 'u';
    assert (text + [c])[..q] == text[..q] && (input + [c])[..q] == input[..q];
    assert (text + [c])[q] == 'u';
  }

  lemma GarblingDeparts(text: string, input: string, c: char, q: nat, next: string)
    requires text == input || Departs(text, input)
    requires q < |text| && IsOpener(text[q]) && text[..q] + "undefined" <= next
    ensures Departs(next, input + [c])
  {
    assert next[..q] == text[..q] && next[q] == 'u';
    var more := input + [c];
    if text == input {
      assert more[..q] == input[..q];
      assert next[..q] == more[..q] && IsOpener(more[q]);
    } else {
      var p :| 0 <= p < |text| && p < |input| && text[..p] == input[..p] && IsOpener(input[p]) && text[p] == 'u';
      if p < q {
        assert next[..p] == text[..q][..p] == text[..p];
        assert more[..p] == input[..p];
        assert next[p] == text[..q][p] == 'u';
      } else {
        assert p != q;
        assert text[..q] == text[..p][..q] == input[..p][..q] == input[..q];
        assert input[q] == input[..p][q] == text[..p][q] == text[q];
        assert more[..q] == input[..q];
      }
    }
  }

  /** Parsing plain characters either keeps their text or departs from it for good. */
  lemma {:induction false} RunPrints(st: State, s: string, i: nat)
    requires Inv(st) && i <= |s| && AllPlain(s)
    requires Printed(st.stack) == s[..i] || Departs(Printed(st.stack), s[..i])
    ensures Inv(Run(st, s, i))
    ensures Printed(st.stack) == s[..i] && !GarblesIn(st, s[i..]) ==> Printed(Run(st, s, i).stack) == s
    ensures Departs(Printed(st.stack), s[..i]) || GarblesIn(st, s[i..]) ==> Departs(Printed(Run(st, s, i).stack), s)
    decreases |s| - i
  {
    hide Inv, Printed, Step, Garbles, Departs;
    if i == |s| {
      assert s[..i] == s;
    } else {
      var c := s[i];
      assert IsPlain(c);
      assert s[..i + 1] == s[..i] + [c];
      assert s[i..][1..] == s[i + 1..];
      ValidInv(st);
      if Garbles(st, c) {
        var q := StepGarbles(st, c);
        GarblingDeparts(Printed(st.stack), s[..i], c, q, Printed(Step(st, c).stack));
      } else {
        StepPrints(st, c);
        if Departs(Printed(st.stack), s[..i]) {
          DepartureStays(Printed(st.stack), s[..i], c);
        }
      }
      RunPrints(Step(st, c), s, i + 1);
    }
  }

  lemma ValidInv(st: State)
    requires Inv(st)
    ensures st.Valid()
  {
  }

  // --- splicing unclosed blocks ---

  lemma {:induction false} MarkPrints(nodes: seq<Node>)
    ensures StringifyAll(MarkAll(nodes)) == StringifyAll(nodes)
  {
    if |nodes| > 0 {
      var init, last := nodes[..|nodes| - 1], nodes[|nodes| - 1];
      MarkPrints(init);
      assert MarkAll(nodes)[..|nodes| - 1] == MarkAll(init);
      assert Stringify(Mark(last)) == Stringify(last);
    }
  }

  lemma {:induction false} PrintedSnoc(stack: seq<Node>, b: Node)
    requires b.Block? && forall i :: 0 <= i < |stack| ==> stack[i].Block?
    ensures Printed(stack + [b]) == Printed(stack) + StringifyAll(b.nodes)
  {
    assert (stack + [b])[..|stack|] == stack;
  }

  /** Splicing the innermost block keeps the text. */
  lemma {:induction false} SplicePrints(outer: seq<Node>, parent: Node, top: Node)
    requires parent.Block? && top.Block? && forall i :: 0 <= i < |outer| ==> outer[i].Block?
    ensures Printed(outer + [parent.(nodes := parent.nodes + MarkAll(top.nodes))]) == Printed(outer + [parent] + [top])
  {
    hide Printed, StringifyAll, MarkAll;
    PrintedSnoc(outer, parent.(nodes := parent.nodes + MarkAll(top.nodes)));
    PrintedSnoc(outer, parent);
    PrintedSnoc(outer + [parent], top);
    StringifyConcat(parent.nodes, MarkAll(top.nodes));
    MarkPrints(top.nodes);
  }

  lemma {:induction false} UnwindPrints(stack: seq<Node>)
    requires |stack| > 0 && forall i :: 0 <= i < |stack| ==> stack[i].Block?
    ensures StringifyAll(Unwind(stack)) == Printed(stack)
    decreases |stack|
  {
    hide Printed, StringifyAll, MarkAll;
    var n := |stack|;
    if n == 1 {
      PrintedSnoc([], stack[0]);
      PrintedNothing();
      assert stack == [] + [stack[0]];
    } else {
      var outer, parent, top := stack[..n - 2], stack[n - 2], stack[n - 1];
      assert stack == outer + [parent] + [top];
      SplicePrints(outer, parent, top);
      UnwindPrints(outer + [parent.(nodes := parent.nodes + MarkAll(top.nodes))]);
    }
  }

  lemma PrintedNothing()
    ensures Printed([]) == ""
  {
  }

  lemma InitialInv()
    ensures Inv(Initial()) && Printed(Initial().stack) == ""
  {
    var st := Initial();
    StringifyOne(Leaf(Bos, "", false, false));
    assert st.stack[..0] == [];
  }

  lemma TreePrints(st: State)
    requires Inv(st)
    ensures Stringify(Tree(st)) == Printed(st.stack)
  {
    hide ChainClear, Printed;
    UnwindPrints(st.stack);
    StringifySnoc(Unwind(st.stack), Leaf(Eos, "", false, false));
    assert BlockOk(st.stack[0]);
  }

  /** Printing undoes parsing, balanced or not, exactly for the inputs on which the parser
      never reaches the garbling branch. */
  lemma {:induction false} PrintUndoesParse(s: string)
    requires AllPlain(s)
    ensures Stringify(Tree(Run(Initial(), s, 0))) == s <==> !GarblesIn(Initial(), s)
  {
    hide Inv, Printed, GarblesIn, Tree, Run;
    InitialInv();
    assert s[0..] == s && s[..0] == "";
    RunPrints(Initial(), s, 0);
    TreePrints(Run(Initial(), s, 0));
    if GarblesIn(Initial(), s) {
      DepartedDiffers(Printed(Run(Initial(), s, 0).stack), s);
    }
  }

  lemma DepartedDiffers(text: string, input: string)
    requires Departs(text, input)
    ensures text != input
  {
  }

  // --- a condition on the text alone ---

  predicate Dotted(s: string, n: nat) {
    |s| >= n && forall i :: 0 <= i < n ==> s[i] == '.'
  }

  predicate ThreeDots(s: string) {
    exists i: nat :: i <= |s| && Dotted(s[i..], 3)
  }

  /** The dots still to come do not make three with those the parser last touched. */
  predicate FewDots(st: State, s: string)
    requires st.Valid()
  {
    && !ThreeDots(s)
    && (PrevKind(st) == Dot ==> !Dotted(s, 2))
    && (PrevKind(st) == Range ==> !Dotted(s, 1))
  }

  lemma LeafPushed(st: State, kind: Kind, value: string)
    requires st.Valid()
    ensures !PushLeaf(st, kind, value).onBlock && PrevKind(PushLeaf(st, kind, value)) == kind
  {
  }

  /** Closing a block does not change what was touched last. */
  lemma PopTouched(st: State)
    requires st.Valid() && |st.stack| > 1 && !st.onBlock
    ensures PrevKind(PopBlock(st)) == PrevKind(st)
  {
  }

  lemma OpenTouched(st: State)
    requires st.Valid()
    ensures PrevKind(OpenBrace(st)) == Open && PrevKind(OpenParen(st)) == Text
  {
    hide PushLeaf;
    var b := st.(stack := st.stack + [NewBlock(Paren, false)], onBlock := false);
    assert PrevKind(b) == Root;
    LeafPushed(b, Text, "(");
    var v := PrevValue(st);
    var dollar := (v != "" && v[|v| - 1] == '$') || st.Top().dollar;
    LeafPushed(st.(stack := st.stack + [NewBlock(Brace, dollar)], depth := st.depth + 1, onBlock := false), Open, "{");
  }

  lemma CloseBraceTouched(st: State)
    requires Inv(st)
    ensures !IsDots(PrevKind(CloseBrace(st)))
  {
    hide Inv, PushText, PushLeaf, PopBlock;
    ValidInv(st);
    if st.Top().kind != Brace || |st.stack| == 1 {
      TextTouched(st, "}");
    } else {
      var closing := PushLeaf(st, Close, "}");
      LeafPushed(st, Close, "}");
      LeafPushedUnder(st, Close, "}");
      var closed := closing.WithTop(closing.Top().(closed := true));
      assert PrevKind(closed) == Close;
      PopTouched(closed);
    }
  }

  lemma LeafPushedUnder(st: State, kind: Kind, value: string)
    requires st.Valid()
    ensures |PushLeaf(st, kind, value).stack| == |st.stack|
  {
  }

  lemma TextPushedUnder(st: State, value: string)
    requires st.Valid()
    ensures |PushText(st, value).stack| == |st.stack|
  {
  }

  lemma CloseParenTouched(st: State)
    requires Inv(st)
    ensures !IsDots(PrevKind(CloseParen(st)))
  {
    hide Inv, PushText, PopBlock;
    ValidInv(st);
    TextTouched(st, ")");
    TextPushedUnder(st, ")");
    if st.Top().kind == Paren && |st.stack| > 1 {
      PopTouched(PushText(st, ")"));
    }
  }

  lemma CommaTouched(st: State)
    requires st.Valid()
    ensures PrevKind(PushComma(st)) == Comma
  {
    hide PushLeaf, StringifyAll;
    var top := st.Top();
    if top.ranges > 0 && |top.nodes| > 0 {
      LeafPushed(st.WithTop(top.(ranges := 0,
                                 nodes := [top.nodes[0], Leaf(Text, StringifyAll(top.nodes[1..]), false, false)]))
                   .(onBlock := false), Comma, ",");
    } else {
      LeafPushed(st, Comma, ",");
    }
  }

  lemma NoDotsTouched(st: State, c: char)
    requires Inv(st) && c != '.'
    ensures !IsDots(PrevKind(Step(st, c)))
  {
    hide Inv, PushText, PushComma, OpenBrace, CloseBrace, OpenParen, CloseParen, KindOf;
    ValidInv(st);
    OpenTouched(st);
    CloseBraceTouched(st);
    CloseParenTouched(st);
    CommaTouched(st);
    TextTouched(st, [c]);
  }

  lemma DotsTouched(st: State)
    requires Inv(st) && PrevKind(st) != Range && PrevKind(st) != Dot
    ensures PrevKind(Step(st, '.')) != Range
  {
    hide Inv, PushText, PushLeaf, KindOf;
    ValidInv(st);
    LeafPushed(st, Dot, ".");
    TextTouched(st, ".");
  }

  lemma RestHasFewDots(s: string)
    requires |s| > 0
    ensures ThreeDots(s[1..]) ==> ThreeDots(s)
    ensures s[0] == '.' ==> Dotted(s, 1) && (Dotted(s[1..], 1) ==> Dotted(s, 2)) && (Dotted(s[1..], 2) ==> ThreeDots(s))
  {
    var rest := s[1..];
    forall i: nat | i <= |rest| && Dotted(rest[i..], 3) ensures ThreeDots(s) {
      assert s[i + 1..] == rest[i..];
    }
    assert s[0..] == s;
  }

  lemma StepFewDots(st: State, s: string)
    requires Inv(st) && |s| > 0 && FewDots(st, s)
    ensures Step(st, s[0]).Valid() && FewDots(Step(st, s[0]), s[1..])
  {
    hide Inv, Step, PrevKind, Dotted, ThreeDots;
    ValidInv(st);
    RestHasFewDots(s);
    if s[0] != '.' {
      NoDotsTouched(st, s[0]);
    } else if PrevKind(st) != Dot {
      DotsTouched(st);
    }
  }

  lemma {:induction false} FewDotsNeverGarble(st: State, s: string)
    requires Inv(st) && AllPlain(s) && FewDots(st, s)
    ensures !GarblesIn(st, s)
    decreases |s|
  {
    hide Inv, Step, PrevKind;
    ValidInv(st);
    if |s| > 0 {
      RestHasFewDots(s);
      StepFewDots(st, s);
      StepPrints(st, s[0]);
      FewDotsNeverGarble(Step(st, s[0]), s[1..]);
    }
  }

  /** Three dots in a row are the only way to it: any other text is printed back as it was. */
  lemma {:induction false} WithoutThreeDots(s: string)
    requires AllPlain(s) && !ThreeDots(s)
    ensures Stringify(Tree(Run(Initial(), s, 0))) == s
  {
    hide Inv, GarblesIn, Tree, Run;
    InitialInv();
    assert PrevKind(Initial()) == Bos;
    FewDotsNeverGarble(Initial(), s);
    PrintUndoesParse(s);
  }
}
