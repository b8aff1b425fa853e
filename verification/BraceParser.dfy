/** The brace parser: a stack of open blocks rewritten in place, one character at a time.
    The state keeps the open blocks as values, innermost last; a block joins its parent's
    children when it is closed or spliced. */
module BraceParser {
  import opened Prelude
  import opened BraceAst

  const MAX_LENGTH: nat := 10000
  const MAX_DEPTH: nat := 64

  /** `stack` are the open blocks, root first. `onBlock` tells whether the node the parser
      last touched is the innermost block's last child itself, a closed block; otherwise it
      is the last leaf, inside closed blocks if need be. `depth` counts open braces,
      `brackets` unmatched square brackets. */
  datatype State = State(stack: seq<Node>, onBlock: bool, depth: int, brackets: int) {
    predicate Valid() {
      |stack| > 0 && forall i :: 0 <= i < |stack| ==> stack[i].Block?
    }

    function Top(): (b: Node)
      requires Valid()
      ensures b.Block?
    {
      stack[|stack| - 1]
    }

    function WithTop(b: Node): (st: State)
      requires Valid() && b.Block?
      ensures st.Valid()
    {
      this.(stack := stack[..|stack| - 1] + [b])
    }
  }

  // --- the node last touched ---

  /** The last leaf under a list of nodes. */
  function LastLeaf(nodes: seq<Node>): (l: Option<Node>)
    ensures l.Some? ==> l.value.Leaf?
  {
    if |nodes| == 0 then None
    else
      match nodes[|nodes| - 1]
      case Leaf(_, _, _, _) => Some(nodes[|nodes| - 1])
      case Block(_, _, inner, _, _, _, _, _) => LastLeaf(inner)
  }

  /** Replaces the kind of the last leaf and appends to its text. */
  function ExtendLeaf(nodes: seq<Node>, kind: Kind, more: string): (r: seq<Node>) {
    if |nodes| == 0 then nodes
    else
      var last := nodes[|nodes| - 1];
      nodes[..|nodes| - 1] + [
        match last
        case Leaf(_, value, _, _) => last.(kind := kind, value := value + more)
        case Block(_, _, inner, _, _, _, _, _) => last.(nodes := ExtendLeaf(inner, kind, more))
      ]
  }

  /** Kind of the node last touched. */
  function PrevKind(st: State): (k: Kind)
    requires st.Valid()
  {
    KindOf(st.Top().nodes, st.onBlock)
  }

  function KindOf(nodes: seq<Node>, onBlock: bool): (k: Kind) {
    if onBlock && |nodes| > 0 then nodes[|nodes| - 1].kind
    else if LastLeaf(nodes).Some? then LastLeaf(nodes).value.kind
    else Root
  }

  /** Its text, if it has any. */
  function PrevValue(st: State): (v: string)
    requires st.Valid()
  {
    var nodes := st.Top().nodes;
    if st.onBlock && |nodes| > 0 && nodes[|nodes| - 1].Block? then
      (match nodes[|nodes| - 1].own case Some(v) => v case None => "")
    else if LastLeaf(nodes).Some? then LastLeaf(nodes).value.value
    else ""
  }

  // --- pushing ---

  /** A new leaf at the end of the innermost block. */
  function PushLeaf(st: State, kind: Kind, value: string): (r: State)
    requires st.Valid()
    ensures r.Valid()
  {
    var top := st.Top();
    var leaf := Leaf(kind, value, PrevKind(st) == Comma, false);
    st.WithTop(top.(nodes := top.nodes + [leaf])).(onBlock := false)
  }

  /** Text joins a preceding text, turns a preceding dot into text and joins it, and is a
      new leaf otherwise. */
  function PushText(st: State, value: string): (r: State)
    requires st.Valid()
    ensures r.Valid()
  {
    if PrevKind(st) == Text || PrevKind(st) == Dot then
      st.WithTop(st.Top().(nodes := ExtendLeaf(st.Top().nodes, Text, value)))
    else
      PushLeaf(st, Text, value)
  }

  function NewBlock(kind: Kind, dollar: bool): (b: Node)
    ensures b.Block?
  {
    Block(kind, None, [], false, dollar, 0, 0, false)
  }

  /** The innermost block, closed, becomes the last child of its parent. */
  function PopBlock(st: State): (r: State)
    requires st.Valid() && |st.stack| > 1
    ensures r.Valid()
  {
    var parent := st.stack[|st.stack| - 2];
    st.(stack := st.stack[..|st.stack| - 2] + [parent.(nodes := parent.nodes + [st.Top()])])
  }

  // --- characters ---

  function OpenBrace(st: State): (r: State)
    requires st.Valid()
    ensures r.Valid()
  {
    var v := PrevValue(st);
    var dollar := (v != "" && v[|v| - 1] == '$') || st.Top().dollar;
    PushLeaf(st.(stack := st.stack + [NewBlock(Brace, dollar)], depth := st.depth + 1, onBlock := false), Open, "{")
  }

  function CloseBrace(st: State): (r: State)
    requires st.Valid()
    ensures r.Valid()
  {
    if st.Top().kind != Brace || |st.stack| == 1 then PushText(st, "}")
    else
      var closing := PushLeaf(st, Close, "}");
      PopBlock(closing.WithTop(closing.Top().(closed := true))).(depth := st.depth - 1)
  }

  function OpenParen(st: State): (r: State)
    requires st.Valid()
    ensures r.Valid()
  {
    PushText(st.(stack := st.stack + [NewBlock(Paren, false)], onBlock := false), "(")
  }

  function CloseParen(st: State): (r: State)
    requires st.Valid()
    ensures r.Valid()
  {
    if st.Top().kind != Paren || |st.stack| == 1 then PushText(st, ")")
    else PopBlock(PushText(st, ")"))
  }

  /** A comma ends any range read so far: what follows the opening brace becomes plain text. */
  function PushComma(st: State): (r: State)
    requires st.Valid()
    ensures r.Valid()
  {
    var top := st.Top();
    var plain :=
      if top.ranges > 0 && |top.nodes| > 0 then
        st.WithTop(top.(ranges := 0,
                        nodes := [top.nodes[0], Leaf(Text, StringifyAll(top.nodes[1..]), false, false)]))
          .(onBlock := false)
      else st;
    var pushed := PushLeaf(plain, Comma, ",");
    if top.kind == Brace then pushed.WithTop(pushed.Top().(commas := top.commas + 1)) else pushed
  }

  /** Two dots in a row: a range if it can be one, text otherwise. */
  function SecondDot(st: State): (r: State)
    requires st.Valid()
    ensures r.Valid()
  {
    var top := st.Top();
    if |top.nodes| == 3 || |top.nodes| == 5 then
      st.WithTop(top.(nodes := ExtendLeaf(top.nodes, Range, "."), ranges := top.ranges + 1))
    else
      st.WithTop(top.(nodes := ExtendLeaf(top.nodes, Text, "."), ranges := 0, invalid := true))
  }

  /** `value += more`, where a missing value reads as "undefined". */
  function AppendValue(node: Node, more: string): (r: Node) {
    match node
    case Leaf(_, value, _, _) => node.(value := value + more)
    case Block(_, own, _, _, _, _, _, _) =>
      node.(own := Some((match own case Some(v) => v case None => "undefined") + more))
  }

  /** A third dot: the range is undone and its text joins the node before it. */
  function ThirdDot(st: State): (r: State)
    requires st.Valid()
    ensures r.Valid()
  {
    var top := st.Top();
    var n := |top.nodes|;
    if n < 2 then st
    else
      var before := AppendValue(top.nodes[n - 2], PrevValue(st) + ".");
      st.WithTop(top.(nodes := top.nodes[..n - 2] + [before], ranges := if top.ranges > 0 then top.ranges - 1 else 0))
        .(onBlock := before.Block?)
  }

  function PushDot(st: State): (r: State)
    requires st.Valid()
    ensures r.Valid()
  {
    if PrevKind(st) == Dot then SecondDot(st)
    else if PrevKind(st) == Range then ThirdDot(st)
    else PushLeaf(st, Dot, ".")
  }

  /** One character that is neither an escape, a quote nor a square bracket. */
  function Step(st: State, c: char): (r: State)
    requires st.Valid()
    ensures r.Valid()
  {
    if c == '(' then OpenParen(st)
    else if c == ')' then CloseParen(st)
    else if c == '{' then OpenBrace(st)
    else if c == '}' then CloseBrace(st)
    else if c == ',' && st.depth > 0 then PushComma(st)
    else if c == '.' && st.depth > 0 && st.Top().kind == Brace && st.Top().commas == 0 then PushDot(st)
    else PushText(st, [c])
  }

  // --- escapes, square brackets and quotes ---

  /** The character at `i`; reading past the end yields the text "undefined". */
  function CharAt(s: string, i: nat): (t: string) {
    if i < |s| then [s[i]] else "undefined"
  }

  /** Scans from `i` to the square bracket that balances all open ones: the text so far
      extended by everything scanned, the brackets still open, and the next position. */
  function ScanBrackets(s: string, i: nat, brackets: int, value: string): (r: (string, int, nat))
    ensures i <= r.2 || i > |s|
    decreases |s| - i
  {
    if i >= |s| then (value, brackets, i)
    else if s[i] == '[' then ScanBrackets(s, i + 1, brackets + 1, value + [s[i]])
    else if s[i] == '\\' then
      if i + 1 < |s| then ScanBrackets(s, i + 2, brackets, value + [s[i]] + CharAt(s, i + 1))
      else (value + [s[i]] + CharAt(s, i + 1), brackets, i + 2)
    else if s[i] == ']' then
      if brackets == 1 then (value + [s[i]], 0, i + 1) else ScanBrackets(s, i + 1, brackets - 1, value + [s[i]])
    else ScanBrackets(s, i + 1, brackets, value + [s[i]])
  }

  /** Scans from `i` to the closing quote `open`, keeping escapes and dropping the quotes. */
  function ScanQuote(s: string, i: nat, open: char, value: string): (r: (string, nat))
    ensures i <= r.1 || i > |s|
    decreases |s| - i
  {
    if i >= |s| then (value, i)
    else if s[i] == '\\' then
      if i + 1 < |s| then ScanQuote(s, i + 2, open, value + [s[i]] + CharAt(s, i + 1))
      else (value + [s[i]] + CharAt(s, i + 1), i + 2)
    else if s[i] == open then (value, i + 1)
    else ScanQuote(s, i + 1, open, value + [s[i]])
  }

  predicate IsQuote(c: char) {
    c == '"' || c == '\'' || c == '`'
  }

  predicate IsIgnored(c: char) {
    c == '\U{FEFF}' || c == '\U{00A0}'
  }

  /** Processes the input from position `i`. */
  function Run(st: State, s: string, i: nat): (r: State)
    requires st.Valid()
    ensures r.Valid()
    decreases if i < |s| then |s| - i else 0
  {
    if i >= |s| then st
    else
      var c := s[i];
      if IsIgnored(c) then Run(st, s, i + 1)
      else if c == '\\' then Run(PushText(st, CharAt(s, i + 1)), s, i + 2)
      else if c == ']' then Run(PushText(st, "\\]"), s, i + 1)
      else if c == '[' then
        var (value, brackets, next) := ScanBrackets(s, i + 1, st.brackets + 1, "[");
        Run(PushText(st, value).(brackets := brackets), s, next)
      else if IsQuote(c) then
        var (value, next) := ScanQuote(s, i + 1, c, "");
        Run(PushText(st, value), s, next)
      else Run(Step(st, c), s, i + 1)
  }

  // --- unbalanced blocks ---

  function Mark(node: Node): (r: Node) {
    match node
    case Leaf(_, value, afterComma, _) => Leaf(Text, value, afterComma, true)
    case Block(_, _, _, _, _, _, _, _) => node
  }

  function MarkAll(nodes: seq<Node>): (r: seq<Node>)
    ensures |r| == |nodes|
  {
    seq(|nodes|, i requires 0 <= i < |nodes| => Mark(nodes[i]))
  }

  /** Blocks still open are replaced by their children, whose leaves become text. */
  function Unwind(stack: seq<Node>): (nodes: seq<Node>)
    requires |stack| > 0 && forall i :: 0 <= i < |stack| ==> stack[i].Block?
    decreases |stack|
  {
    var n := |stack|;
    if n == 1 then stack[0].nodes
    else
      var parent := stack[n - 2];
      Unwind(stack[..n - 2] + [parent.(nodes := parent.nodes + MarkAll(stack[n - 1].nodes))])
  }

  function Initial(): (st: State)
    ensures st.Valid()
  {
    State([Block(Root, None, [Leaf(Bos, "", false, false)], false, false, 0, 0, false)], false, 0, 0)
  }

  function Tree(st: State): (root: Node)
    requires st.Valid()
  {
    st.stack[0].(nodes := Unwind(st.stack) + [Leaf(Eos, "", false, false)])
  }

  // --- the length and nesting guard ---

  /** Nesting after a prefix, counting braces as plain characters and never below zero. */
  function Nesting(s: string): (d: nat) {
    if |s| == 0 then 0
    else
      var d, c := Nesting(s[..|s| - 1]), s[|s| - 1];
      if c == '{' then d + 1 else if c == '}' && d > 0 then d - 1 else d
  }

  predicate GuardAccepts(s: string) {
    |s| <= MAX_LENGTH && forall i :: 0 <= i <= |s| ==> Nesting(s[..i]) <= MAX_DEPTH
  }

  method Guard(input: string) returns (r: Result<()>)
    ensures r.Ok? <==> GuardAccepts(input)
  {
    if |input| > MAX_LENGTH {
      return Rejected;
    }
    var depth := 0;
    assert input[..0] == [];
    for i := 0 to |input|
      invariant depth == Nesting(input[..i])
      invariant forall j :: 0 <= j <= i ==> Nesting(input[..j]) <= MAX_DEPTH
    {
      assert input[..i + 1][..i] == input[..i];
      if input[i] == '{' {
        depth := depth + 1;
        if depth > MAX_DEPTH {
          return Rejected;
        }
      }
      if input[i] == '}' {
        depth := if depth - 1 > 0 then depth - 1 else 0;
      }
    }
    r := Ok(());
  }

  /** Parses a pattern; one turn of the loop per character, escape, bracket run or quotation. */
  method Parse(input: string) returns (r: Result<Node>)
    ensures r.Ok? <==> GuardAccepts(input)
    ensures r.Ok? ==> r.value == Tree(Run(Initial(), input, 0))
  {
    var _ :- Guard(input);
    var st, index: nat := Initial(), 0;
    while index < |input|
      invariant st.Valid()
      invariant Run(st, input, index) == Run(Initial(), input, 0)
      decreases if index < |input| then |input| - index else 0
    {
      var c := input[index];
      index := index + 1;
      if IsIgnored(c) {
      } else if c == '\\' {
        st := PushText(st, CharAt(input, index));
        index := index + 1;
      } else if c == ']' {
        st := PushText(st, "\\]");
      } else if c == '[' {
        var value, brackets, next := ReadBrackets(input, index, st.brackets + 1);
        st, index := PushText(st, value).(brackets := brackets), next;
      } else if IsQuote(c) {
        var value, next := ReadQuote(input, index, c);
        st, index := PushText(st, value), next;
      } else {
        st := Step(st, c);
      }
    }
    r := Ok(Tree(st));
  }

  method ReadBrackets(s: string, from: nat, open: int) returns (value: string, brackets: int, i: nat)
    requires from <= |s|
    ensures (value, brackets, i) == ScanBrackets(s, from, open, "[")
  {
    value, brackets, i := "[", open, from;
    while i < |s|
      invariant from <= i
      invariant ScanBrackets(s, i, brackets, value) == ScanBrackets(s, from, open, "[")
      decreases |s| - i
    {
      var next := s[i];
      i, value := i + 1, value + [next];
      if next == '[' {
        brackets := brackets + 1;
      } else if next == '\\' {
        value := value + CharAt(s, i);
        i := i + 1;
      } else if next == ']' {
        brackets := brackets - 1;
        if brackets == 0 {
          return;
        }
      }
    }
  }

  method ReadQuote(s: string, from: nat, open: char) returns (value: string, i: nat)
    requires from <= |s|
    ensures (value, i) == ScanQuote(s, from, open, "")
  {
    value, i := "", from;
    while i < |s|
      invariant from <= i
      invariant ScanQuote(s, i, open, value) == ScanQuote(s, from, open, "")
      decreases |s| - i
    {
      var next := s[i];
      i := i + 1;
      if next == '\\' {
        value := value + [next] + CharAt(s, i);
        i := i + 1;
      } else if next == open {
        return;
      } else {
        value := value + [next];
      }
    }
  }
}
