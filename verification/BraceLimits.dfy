/** The two guards of the brace library: one looks at the text before it is parsed, the other
    at the tree before it is expanded or compiled. This says, for every pattern, exactly when
    the tree of an accepted text is refused. */
module BraceLimits {
  import BraceAst
  import G = BraceGuard
  import opened BraceParser
  import opened BracePattern

  /** How deeply the braces of a pattern are nested. */
  function Depth(p: Pattern): (d: nat) {
    match p
    case Nil => 0
    case Char(_, rest) => Depth(rest)
    case Group(alts, rest) => Larger(1 + DepthOf(alts), Depth(rest))
  }

  function DepthOf(alts: Alts): (d: nat) {
    match alts
    case Last(p) => Depth(p)
    case More(p, others) => Larger(Depth(p), DepthOf(others))
  }

  function Larger(a: nat, b: nat): (m: nat) {
    if a >= b then a else b
  }

  // --- what the text guard accepts ---

  /** How many more braces a text opens than it closes. */
  function Surplus(s: string): (n: int) {
    if |s| == 0 then 0
    else Surplus(s[..|s| - 1]) + if s[|s| - 1] == '{' then 1 else if s[|s| - 1] == '}' then -1 else 0
  }

  /** The nesting after a text is the largest surplus of its endings. */
  lemma {:induction false} NestingIsSurplus(s: string) returns (k: nat)
    ensures forall i :: 0 <= i <= |s| ==> Surplus(s[i..]) <= Nesting(s)
    ensures k <= |s| && Surplus(s[k..]) == Nesting(s)
  {
    if |s| == 0 {
      k := 0;
    } else {
      var n := |s| - 1;
      var front := s[..n];
      k := NestingIsSurplus(front);
      forall i | 0 <= i <= |s| ensures Surplus(s[i..]) <= Nesting(s) {
        if i <= n {
          EndingSnoc(s, i);
        }
      }
      EndingSnoc(s, k);
      if s[n] == '}' && Nesting(front) == 0 {
        k := |s|;
        assert s[k..] == "";
      }
    }
  }

  lemma EndingSnoc(s: string, i: nat)
    requires i < |s|
    ensures Surplus(s[i..]) == Surplus(s[..|s| - 1][i..])
                               + if s[|s| - 1] == '{' then 1 else if s[|s| - 1] == '}' then -1 else 0
  {
    assert s[i..][..|s[i..]| - 1] == s[..|s| - 1][i..];
  }

  /** A stretch of the text opens at most 64 more braces than it closes. */
  predicate Shallow(s: string, i: nat, j: nat)
    requires i <= j <= |s|
  {
    Surplus(s[i..j]) <= 64
  }

  /** The text guard accepts texts of at most 10000 characters no stretch of which opens more
      than 64 braces beyond those it closes. */
  lemma {:induction false} GuardMeans(s: string)
    ensures GuardAccepts(s) <==> |s| <= 10000 && forall i: nat, j: nat :: i <= j <= |s| ==> Shallow(s, i, j)
  {
    forall j: nat | j <= |s|
      ensures Nesting(s[..j]) <= 64 <==> forall i: nat :: i <= j ==> Shallow(s, i, j)
    {
      var k := NestingIsSurplus(s[..j]);
      forall i: nat | i <= j ensures s[..j][i..] == s[i..j] {
      }
      if Nesting(s[..j]) > 64 {
        assert !Shallow(s, k, j);
      }
    }
  }

  // --- the text guard ---

  function Climb(d: nat, c: char): (r: nat) {
    if c == '{' then d + 1 else if c == '}' && d > 0 then d - 1 else d
  }

  /** The nesting after `s`, starting from `d`. */
  function ClimbEnd(d: nat, s: string): (r: nat)
    decreases |s|
  {
    if |s| == 0 then d else ClimbEnd(Climb(d, s[0]), s[1..])
  }

  /** The deepest nesting on the way. */
  function Peak(d: nat, s: string): (r: nat)
    decreases |s|
  {
    if |s| == 0 then d else Larger(d, Peak(Climb(d, s[0]), s[1..]))
  }

  lemma {:induction false} ClimbConcat(d: nat, a: string, b: string)
    ensures ClimbEnd(d, a + b) == ClimbEnd(ClimbEnd(d, a), b)
    ensures Peak(d, a + b) == Larger(Peak(d, a), Peak(ClimbEnd(d, a), b))
    decreases |a|
  {
    if |a| == 0 {
      assert a + b == b;
      PeakFromStart(d, b);
    } else {
      assert (a + b)[1..] == a[1..] + b;
      ClimbConcat(Climb(d, a[0]), a[1..], b);
    }
  }

  lemma {:induction false} PeakFromStart(d: nat, s: string)
    ensures Peak(d, s) >= d
  {
  }

  lemma {:induction false} ClimbOne(d: nat, c: char)
    ensures ClimbEnd(d, [c]) == Climb(d, c) && Peak(d, [c]) == Larger(d, Climb(d, c))
  {
    assert [c][1..] == "";
  }

  lemma {:induction false} NestingIsClimb(s: string)
    ensures Nesting(s) == ClimbEnd(0, s)
    decreases |s|
  {
    if |s| > 0 {
      var front, c := s[..|s| - 1], s[|s| - 1];
      NestingIsClimb(front);
      ClimbConcat(0, front, [c]);
      ClimbOne(ClimbEnd(0, front), c);
      assert s == front + [c];
    }
  }

  /** The text guard looks at the peak. */
  lemma {:induction false} PrefixesPeak(s: string, limit: nat)
    ensures (forall i :: 0 <= i <= |s| ==> Nesting(s[..i]) <= limit) <==> Peak(0, s) <= limit
    decreases |s|
  {
    hide Nesting, ClimbEnd, Peak;
    assert s[..|s|] == s;
    NestingIsClimb(s);
    if |s| == 0 {
      PeakOfNothing();
    } else {
      var front, c := s[..|s| - 1], s[|s| - 1];
      PrefixesPeak(front, limit);
      ClimbConcat(0, front, [c]);
      ClimbOne(ClimbEnd(0, front), c);
      assert s == front + [c];
      PeakAtEnd(0, front);
      assert forall i :: 0 <= i < |s| ==> s[..i] == front[..i];
    }
  }

  lemma PeakOfNothing()
    ensures Peak(0, "") == 0 == ClimbEnd(0, "")
  {
  }

  lemma {:induction false} PeakAtEnd(d: nat, s: string)
    ensures Peak(d, s) >= ClimbEnd(d, s)
    decreases |s|
  {
    if |s| > 0 {
      PeakAtEnd(Climb(d, s[0]), s[1..]);
    }
  }

  lemma {:induction false} PatternPeak(d: nat, p: Pattern, top: bool)
    requires WellFormed(p, top)
    ensures ClimbEnd(d, Text(p)) == d && Peak(d, Text(p)) == d + Depth(p)
    decreases p
  {
    hide ClimbEnd, Peak;
    match p
    case Nil =>
      ClimbNothing(d);
    case Char(c, rest) =>
      PatternPeak(d, rest, top);
      ClimbConcat(d, [c], Text(rest));
      ClimbOne(d, c);
    case Group(alts, rest) =>
      PatternPeak(d, rest, top);
      AltsPeak(d + 1, alts);
      GroupPeak(d, AltsText(alts), DepthOf(alts));
      ClimbConcat(d, "{" + AltsText(alts) + "}", Text(rest));
  }

  lemma {:induction false} ClimbNothing(d: nat)
    ensures ClimbEnd(d, "") == d == Peak(d, "")
  {
  }

  lemma {:induction false} GroupPeak(d: nat, inner: string, deep: nat)
    requires ClimbEnd(d + 1, inner) == d + 1 && Peak(d + 1, inner) == d + 1 + deep
    ensures ClimbEnd(d, "{" + inner + "}") == d && Peak(d, "{" + inner + "}") == d + 1 + deep
  {
    hide ClimbEnd, Peak;
    ClimbOne(d, '{');
    ClimbOne(d + 1, '}');
    ClimbConcat(d, ['{'], inner);
    ClimbConcat(d, ['{'] + inner, ['}']);
    assert "{" == ['{'] && "}" == ['}'];
  }

  lemma {:induction false} AltsPeak(d: nat, alts: Alts)
    requires WellFormedAlts(alts)
    ensures ClimbEnd(d, AltsText(alts)) == d && Peak(d, AltsText(alts)) == d + DepthOf(alts)
    decreases alts
  {
    hide ClimbEnd, Peak;
    match alts
    case Last(p) =>
      PatternPeak(d, p, false);
    case More(p, others) =>
      PatternPeak(d, p, false);
      AltsPeak(d, others);
      ClimbOne(d, ',');
      ClimbConcat(d, Text(p), [',']);
      ClimbConcat(d, Text(p) + [','], AltsText(others));
      assert Text(p) + "," + AltsText(others) == Text(p) + [','] + AltsText(others);
  }

  // --- the tree guard's measures ---

  function Kids(n: BraceAst.Node): (nodes: seq<BraceAst.Node>) {
    if n.Block? then n.nodes else []
  }

  /** The shape of a syntax tree, with no identities. */
  function Skeleton(n: BraceAst.Node): (t: G.Tree) {
    match n
    case Leaf(_, _, _, _) => G.Tree(0, [])
    case Block(_, _, nodes, _, _, _, _, _) =>
      G.Tree(0, seq(|nodes|, i requires 0 <= i < |nodes| => Skeleton(nodes[i])))
  }

  function Skeletons(nodes: seq<BraceAst.Node>): (ts: seq<G.Tree>)
    ensures |ts| == |nodes|
  {
    seq(|nodes|, i requires 0 <= i < |nodes| => Skeleton(nodes[i]))
  }

  lemma {:induction false} SkeletonOfKids(n: BraceAst.Node)
    ensures Skeleton(n) == G.Tree(0, Skeletons(Kids(n)))
  {
  }

  /** No node lies more than `d` levels below this one. */
  predicate HeightAtMost(n: BraceAst.Node, d: int) {
    G.DepthAtMost(Skeleton(n), d)
  }

  predicate HeightsAtMost(nodes: seq<BraceAst.Node>, d: int) {
    forall i :: 0 <= i < |nodes| ==> HeightAtMost(nodes[i], d)
  }

  lemma {:induction false} HeightsSnoc(nodes: seq<BraceAst.Node>, n: BraceAst.Node, d: int)
    ensures HeightsAtMost(nodes + [n], d) <==> HeightsAtMost(nodes, d) && HeightAtMost(n, d)
  {
    hide HeightAtMost;
    var all := nodes + [n];
    if HeightsAtMost(all, d) {
      forall i | 0 <= i < |nodes| ensures HeightAtMost(nodes[i], d) {
        assert all[i] == nodes[i];
      }
      assert all[|nodes|] == n;
    }
  }

  lemma CharKeepsHeights(nodes: seq<BraceAst.Node>, c: char, d: int)
    requires d >= 0
    ensures HeightsAtMost(AddChar(nodes, c), d) <==> HeightsAtMost(nodes, d)
    ensures HeightsAtMost(AddComma(nodes), d) <==> HeightsAtMost(nodes, d)
  {
    hide HeightsAtMost;
    HeightsSnoc(nodes, AddComma(nodes)[|nodes|], d);
    var r := AddChar(nodes, c);
    if |r| == |nodes| + 1 {
      HeightsSnoc(nodes, r[|nodes|], d);
    } else {
      var front := nodes[..|nodes| - 1];
      HeightsSnoc(front, nodes[|nodes| - 1], d);
      HeightsSnoc(front, r[|nodes| - 1], d);
      assert nodes == front + [nodes[|nodes| - 1]];
    }
  }

  lemma {:induction false} ExtendHeights(nodes: seq<BraceAst.Node>, p: Pattern, d: int)
    requires d >= 0
    ensures HeightsAtMost(Extend(nodes, p), d) <==> HeightsAtMost(nodes, d) && Depth(p) <= d
    decreases p, 0
  {
    hide HeightsAtMost;
    match p
    case Nil =>
    case Char(c, rest) =>
      CharKeepsHeights(nodes, c, d);
      ExtendHeights(AddChar(nodes, c), rest, d);
    case Group(alts, rest) =>
      BraceHeight(alts, d);
      HeightsSnoc(nodes, BraceNode(alts), d);
      ExtendHeights(nodes + [BraceNode(alts)], rest, d);
  }

  lemma {:induction false} ExtendAltsHeights(nodes: seq<BraceAst.Node>, alts: Alts, d: int)
    requires d >= 0
    ensures HeightsAtMost(ExtendAlts(nodes, alts), d) <==> HeightsAtMost(nodes, d) && DepthOf(alts) <= d
    decreases alts, 0
  {
    hide HeightsAtMost;
    match alts
    case Last(p) =>
      ExtendHeights(nodes, p, d);
    case More(p, others) =>
      ExtendHeights(nodes, p, d);
      CharKeepsHeights(Extend(nodes, p), ',', d);
      ExtendAltsHeights(AddComma(Extend(nodes, p)), others, d);
  }

  lemma {:induction false} BraceHeight(alts: Alts, d: int)
    requires d >= 0
    ensures HeightAtMost(BraceNode(alts), d) <==> 1 + DepthOf(alts) <= d
    decreases alts, 1
  {
    hide HeightsAtMost, HeightAtMost, ExtendAlts, BraceNode, DepthOf;
    var close := BraceParts(alts);
    if d == 0 {
      LeafTooDeep(BraceNode(alts).nodes);
    } else {
      ExtendAltsHeights([OPEN], alts, d - 1);
      HeightsSnoc(ExtendAlts([OPEN], alts), close, d - 1);
      OneLeaf(OPEN, d - 1);
      OneLeaf(close, d - 1);
    }
    ChildrenHeights(BraceNode(alts), d);
  }

  lemma BraceParts(alts: Alts) returns (close: BraceAst.Node)
    ensures close.Leaf? && BraceNode(alts).nodes == ExtendAlts([OPEN], alts) + [close]
  {
    hide ExtendAlts;
    var nodes := BraceNode(alts).nodes;
    close := nodes[|nodes| - 1];
  }

  lemma {:induction false} ChildrenHeights(n: BraceAst.Node, d: int)
    requires n.Block?
    ensures HeightAtMost(n, d) <==> d >= 0 && HeightsAtMost(n.nodes, d - 1)
  {
    SkeletonOfKids(n);
    forall i | 0 <= i < |n.nodes|
      ensures HeightAtMost(n.nodes[i], d - 1) <==> G.DepthAtMost(Skeleton(n).children[i], d - 1)
    {
      assert Skeleton(n).children[i] == Skeleton(n.nodes[i]);
    }
  }

  lemma LeafTooDeep(nodes: seq<BraceAst.Node>)
    requires |nodes| > 0
    ensures !HeightsAtMost(nodes, -1)
  {
    assert !HeightAtMost(nodes[0], -1);
  }

  lemma {:induction false} OneLeaf(n: BraceAst.Node, d: int)
    requires n.Leaf? && d >= 0
    ensures HeightsAtMost([n], d) && HeightAtMost(n, d)
  {
  }

  lemma {:induction false} TreeHeight(p: Pattern, d: int)
    requires d >= 1
    ensures HeightAtMost(TreeOf(p), d) <==> Depth(p) <= d - 1
  {
    hide HeightsAtMost;
    ExtendHeights([BOS], p, d - 1);
    OneLeaf(BOS, d - 1);
    HeightsSnoc(Extend([BOS], p), EOS, d - 1);
    ChildrenHeights(TreeOf(p), d);
  }

  // --- how many nodes the parser makes of a pattern ---

  /** Nodes a pattern adds after a text leaf (`joins`) or after anything else: a run of
      characters is one leaf, a brace has two delimiters and a leaf for each comma. */
  function NodesOf(p: Pattern, joins: bool): (n: nat) {
    match p
    case Nil => 0
    case Char(_, rest) => (if joins then 0 else 1) + NodesOf(rest, true)
    case Group(alts, rest) => 3 + NodesOfAlts(alts) + NodesOf(rest, false)
  }

  function NodesOfAlts(alts: Alts): (n: nat) {
    match alts
    case Last(p) => NodesOf(p, false)
    case More(p, others) => NodesOf(p, false) + 1 + NodesOfAlts(others)
  }

  /** The root, its two markers, and what the pattern adds. */
  function NodeCount(p: Pattern): (n: nat) {
    3 + NodesOf(p, false)
  }

  function CountOf(nodes: seq<BraceAst.Node>): (n: nat) {
    |G.IdsOf(Skeletons(nodes))|
  }

  function Count(n: BraceAst.Node): (c: nat) {
    |G.Ids(Skeleton(n))|
  }

  lemma CountOfKids(n: BraceAst.Node)
    ensures Count(n) == 1 + CountOf(Kids(n))
  {
    SkeletonOfKids(n);
  }

  lemma CountSnoc(nodes: seq<BraceAst.Node>, n: BraceAst.Node)
    ensures CountOf(nodes + [n]) == CountOf(nodes) + Count(n)
  {
    assert Skeletons(nodes + [n]) == Skeletons(nodes) + [Skeleton(n)];
    G.IdsSnoc(Skeletons(nodes), Skeleton(n));
    SkeletonOfKids(n);
  }

  lemma LeafCounts(n: BraceAst.Node)
    requires n.Leaf?
    ensures Count(n) == 1
  {
  }

  predicate EndsInText(nodes: seq<BraceAst.Node>) {
    |nodes| > 0 && nodes[|nodes| - 1].Leaf? && nodes[|nodes| - 1].kind == BraceAst.Kind.Text
  }

  lemma CharCounts(nodes: seq<BraceAst.Node>, c: char)
    ensures CountOf(AddChar(nodes, c)) == CountOf(nodes) + (if EndsInText(nodes) then 0 else 1)
    ensures EndsInText(AddChar(nodes, c))
    ensures CountOf(AddComma(nodes)) == CountOf(nodes) + 1 && !EndsInText(AddComma(nodes))
  {
    hide CountOf, Count;
    var comma := AddComma(nodes)[|nodes|];
    CountSnoc(nodes, comma);
    LeafCounts(comma);
    var r := AddChar(nodes, c);
    var last := r[|r| - 1];
    LeafCounts(last);
    if EndsInText(nodes) {
      var front, old_ := nodes[..|nodes| - 1], nodes[|nodes| - 1];
      assert nodes == front + [old_] && r == front + [last];
      CountSnoc(front, old_);
      CountSnoc(front, last);
      LeafCounts(old_);
    } else {
      assert r == nodes + [last];
      CountSnoc(nodes, last);
    }
  }

  lemma {:induction false} ExtendCounts(nodes: seq<BraceAst.Node>, p: Pattern)
    ensures CountOf(Extend(nodes, p)) == CountOf(nodes) + NodesOf(p, EndsInText(nodes))
    decreases p, 0
  {
    hide CountOf, EndsInText, AddChar;
    match p
    case Nil =>
    case Char(c, rest) =>
      CharCounts(nodes, c);
      ExtendCounts(AddChar(nodes, c), rest);
    case Group(alts, rest) =>
      BraceCounts(alts);
      CountSnoc(nodes, BraceNode(alts));
      BlockIsNoText(nodes, BraceNode(alts));
      ExtendCounts(nodes + [BraceNode(alts)], rest);
  }

  lemma BlockIsNoText(nodes: seq<BraceAst.Node>, b: BraceAst.Node)
    requires b.Block?
    ensures !EndsInText(nodes + [b])
  {
  }

  lemma {:induction false} ExtendAltsCounts(nodes: seq<BraceAst.Node>, alts: Alts)
    requires !EndsInText(nodes)
    ensures CountOf(ExtendAlts(nodes, alts)) == CountOf(nodes) + NodesOfAlts(alts)
    decreases alts, 0
  {
    hide CountOf, EndsInText;
    match alts
    case Last(p) =>
      ExtendCounts(nodes, p);
    case More(p, others) =>
      ExtendCounts(nodes, p);
      CharCounts(Extend(nodes, p), ',');
      ExtendAltsCounts(AddComma(Extend(nodes, p)), others);
  }

  lemma {:induction false} BraceCounts(alts: Alts)
    ensures Count(BraceNode(alts)) == 3 + NodesOfAlts(alts)
    decreases alts, 1
  {
    hide CountOf, Count, ExtendAlts, BraceNode;
    var close := BraceParts(alts);
    ExtendAltsCounts([OPEN], alts);
    CountSnoc(ExtendAlts([OPEN], alts), close);
    CountSnoc([], OPEN);
    assert [] + [OPEN] == [OPEN];
    LeafCounts(close);
    LeafCounts(OPEN);
    CountNothing();
    CountOfKids(BraceNode(alts));
  }

  lemma CountNothing()
    ensures CountOf([]) == 0
  {
  }

  lemma TreeCount(p: Pattern)
    ensures Count(TreeOf(p)) == NodeCount(p)
  {
    hide CountOf, Count, Extend;
    ExtendCounts([BOS], p);
    CountSnoc([], BOS);
    assert [] + [BOS] == [BOS];
    CountSnoc(Extend([BOS], p), EOS);
    LeafCounts(BOS);
    LeafCounts(EOS);
    CountNothing();
    CountOfKids(TreeOf(p));
  }

  // --- syntax trees as graphs of objects ---

  function Strip(t: G.Tree): (r: G.Tree) {
    G.Tree(0, seq(|t.children|, i requires 0 <= i < |t.children| => Strip(t.children[i])))
  }

  function StripAll(ts: seq<G.Tree>): (r: seq<G.Tree>)
    ensures |r| == |ts|
  {
    seq(|ts|, i requires 0 <= i < |ts| => Strip(ts[i]))
  }

  /** The objects reachable from `v` are the nodes of `n`, each an object of its own. */
  ghost predicate Represents(g: G.Graph, v: G.Value, n: BraceAst.Node) {
    exists t :: RepresentsAs(g, v, n, t)
  }

  predicate RepresentsAs(g: G.Graph, v: G.Value, n: BraceAst.Node, t: G.Tree) {
    G.Unfolds(g, v, t) && G.Distinct(G.Ids(t)) && Strip(t) == Skeleton(n)
  }

  lemma {:induction false} StripCounts(t: G.Tree)
    ensures |G.Ids(Strip(t))| == |G.Ids(t)|
    decreases t, 1
  {
    StripAllCounts(t.children);
    assert Strip(t).children == StripAll(t.children);
  }

  lemma {:induction false} StripAllCounts(ts: seq<G.Tree>)
    ensures |G.IdsOf(StripAll(ts))| == |G.IdsOf(ts)|
    decreases ts, 0
  {
    if |ts| > 0 {
      StripCounts(ts[0]);
      StripAllCounts(ts[1..]);
      assert StripAll(ts)[1..] == StripAll(ts[1..]);
    }
  }

  lemma {:induction false} StripDepth(t: G.Tree, d: int)
    ensures G.DepthAtMost(Strip(t), d) <==> G.DepthAtMost(t, d)
    decreases t
  {
    forall i | 0 <= i < |t.children|
      ensures G.DepthAtMost(Strip(t).children[i], d - 1) <==> G.DepthAtMost(t.children[i], d - 1)
    {
      StripDepth(t.children[i], d - 1);
    }
  }

  /** A graph unfolds to one tree only. */
  lemma {:induction false} UnfoldsOnce(g: G.Graph, v: G.Value, t: G.Tree, u: G.Tree)
    requires G.Unfolds(g, v, t) && G.Unfolds(g, v, u)
    ensures t == u
    decreases t
  {
    if g(t.id).Nodes? {
      var vs := g(t.id).values;
      forall i | 0 <= i < |vs| ensures t.children[i] == u.children[i] {
        UnfoldsOnce(g, vs[i], t.children[i], u.children[i]);
      }
    }
  }

  /** On the objects of a syntax tree the tree guard looks at the tree's height and size. */
  lemma SmallWhenRepresented(g: G.Graph, v: G.Value, n: BraceAst.Node)
    requires Represents(g, v, n)
    ensures G.SmallTree(g, v) <==> HeightAtMost(n, 64) && Count(n) <= G.MAX_NODES
  {
    var t :| RepresentsAs(g, v, n, t);
    StripCounts(t);
    StripDepth(t, 64);
    if G.SmallTree(g, v) {
      var u :| G.Unfolds(g, v, u) && G.Distinct(G.Ids(u)) && |G.Ids(u)| <= G.MAX_NODES && G.DepthAtMost(u, 64);
      UnfoldsOnce(g, v, t, u);
    }
  }

  // --- every syntax tree is represented by some graph ---

  /** The tree with its nodes numbered from `k` on. */
  function Numbered(t: G.Tree, k: nat): (r: G.Tree)
    decreases t, 1
  {
    G.Tree(k, NumberedAll(t.children, k + 1))
  }

  function NumberedAll(ts: seq<G.Tree>, k: nat): (r: seq<G.Tree>)
    ensures |r| == |ts|
    decreases ts, 0
  {
    if |ts| == 0 then []
    else [Numbered(ts[0], k)] + NumberedAll(ts[1..], k + |G.Ids(ts[0])|)
  }

  predicate CountsFrom(ids: seq<nat>, k: nat) {
    forall i :: 0 <= i < |ids| ==> ids[i] == k + i
  }

  lemma {:induction false} NumberedCounts(t: G.Tree, k: nat)
    ensures CountsFrom(G.Ids(Numbered(t, k)), k) && |G.Ids(Numbered(t, k))| == |G.Ids(t)|
    decreases t, 1
  {
    NumberedAllCount(t.children, k + 1);
  }

  lemma {:induction false} NumberedAllCount(ts: seq<G.Tree>, k: nat)
    ensures CountsFrom(G.IdsOf(NumberedAll(ts, k)), k) && |G.IdsOf(NumberedAll(ts, k))| == |G.IdsOf(ts)|
    decreases ts, 0
  {
    if |ts| > 0 {
      NumberedCounts(ts[0], k);
      NumberedAllCount(ts[1..], k + |G.Ids(ts[0])|);
      assert NumberedAll(ts, k)[1..] == NumberedAll(ts[1..], k + |G.Ids(ts[0])|);
    }
  }

  lemma {:induction false} NumberedStrips(t: G.Tree, k: nat)
    ensures Strip(Numbered(t, k)) == Strip(t)
    decreases t, 1
  {
    NumberedAllStrip(t.children, k + 1);
    assert Strip(Numbered(t, k)).children == StripAll(NumberedAll(t.children, k + 1));
    assert Strip(t).children == StripAll(t.children);
  }

  lemma {:induction false} NumberedAllStrip(ts: seq<G.Tree>, k: nat)
    ensures StripAll(NumberedAll(ts, k)) == StripAll(ts)
    decreases ts, 0
  {
    if |ts| > 0 {
      NumberedStrips(ts[0], k);
      NumberedAllStrip(ts[1..], k + |G.Ids(ts[0])|);
      var r := NumberedAll(ts, k);
      assert StripAll(r) == [Strip(r[0])] + StripAll(r[1..]);
      assert StripAll(ts) == [Strip(ts[0])] + StripAll(ts[1..]);
    }
  }

  lemma {:induction false} SkeletonIsBare(n: BraceAst.Node)
    ensures Strip(Skeleton(n)) == Skeleton(n)
    decreases n
  {
    SkeletonOfKids(n);
    var t := Skeleton(n);
    forall i | 0 <= i < |t.children| ensures Strip(t.children[i]) == t.children[i] {
      SkeletonIsBare(Kids(n)[i]);
    }
  }

  function Refs(ts: seq<G.Tree>): (vs: seq<G.Value>)
    ensures |vs| == |ts|
    ensures forall i :: 0 <= i < |ts| ==> vs[i] == G.Ref(ts[i].id)
  {
    seq(|ts|, i requires 0 <= i < |ts| => G.Ref(ts[i].id))
  }

  /** The `nodes` property of the object numbered `id` somewhere in the forest. */
  function NodesAt(ts: seq<G.Tree>, id: nat): (c: G.Children)
    decreases ts
  {
    if |ts| == 0 then G.Absent
    else if id == ts[0].id then (if |ts[0].children| == 0 then G.Absent else G.Nodes(Refs(ts[0].children)))
    else if id in G.Ids(ts[0]) then NodesAt(ts[0].children, id)
    else NodesAt(ts[1..], id)
  }

  /** `g` gives every object of the tree the children it has there. */
  predicate Holds(g: G.Graph, t: G.Tree) {
    && g(t.id) == (if |t.children| == 0 then G.Absent else G.Nodes(Refs(t.children)))
    && forall i :: 0 <= i < |t.children| ==> Holds(g, t.children[i])
  }

  lemma {:induction false} HoldsUnfolds(g: G.Graph, t: G.Tree)
    requires Holds(g, t)
    ensures G.Unfolds(g, G.Ref(t.id), t)
    decreases t
  {
    forall i | 0 <= i < |t.children| ensures G.Unfolds(g, G.Ref(t.children[i].id), t.children[i]) {
      HoldsUnfolds(g, t.children[i]);
    }
  }

  predicate FindsAll(g: G.Graph, ts: seq<G.Tree>) {
    forall id :: id in G.IdsOf(ts) ==> g(id) == NodesAt(ts, id)
  }

  lemma {:induction false} ForestHolds(g: G.Graph, ts: seq<G.Tree>, i: nat)
    requires G.Distinct(G.IdsOf(ts)) && FindsAll(g, ts) && i < |ts|
    ensures Holds(g, ts[i])
    decreases ts
  {
    hide Holds;
    FirstAndRest(g, ts);
    if i > 0 {
      ForestHolds(g, ts[1..], i - 1);
    } else {
      forall k | 0 <= k < |ts[0].children| ensures Holds(g, ts[0].children[k]) {
        ForestHolds(g, ts[0].children, k);
      }
      HoldsOne(g, ts[0]);
    }
  }

  lemma {:induction false} HoldsOne(g: G.Graph, t: G.Tree)
    requires g(t.id) == (if |t.children| == 0 then G.Absent else G.Nodes(Refs(t.children)))
    requires forall i :: 0 <= i < |t.children| ==> Holds(g, t.children[i])
    ensures Holds(g, t)
  {
  }

  /** With distinct identities the look-up finds the first tree's objects in it and the
      others in the rest. */
  lemma {:induction false} FirstAndRest(g: G.Graph, ts: seq<G.Tree>)
    requires G.Distinct(G.IdsOf(ts)) && FindsAll(g, ts) && |ts| > 0
    ensures g(ts[0].id) == (if |ts[0].children| == 0 then G.Absent else G.Nodes(Refs(ts[0].children)))
    ensures G.Distinct(G.IdsOf(ts[0].children)) && FindsAll(g, ts[0].children)
    ensures G.Distinct(G.IdsOf(ts[1..])) && FindsAll(g, ts[1..])
  {
    var first, kids, rest := ts[0].id, G.IdsOf(ts[0].children), G.IdsOf(ts[1..]);
    assert G.IdsOf(ts) == [first] + kids + rest;
    DistinctParts(first, kids, rest);
    assert G.IdsOf(ts)[0] == first;
    forall id | id in kids ensures g(id) == NodesAt(ts[0].children, id) {
      assert id in G.IdsOf(ts) && id in G.Ids(ts[0]) && id != first;
    }
    forall id | id in rest ensures g(id) == NodesAt(ts[1..], id) {
      assert id in G.IdsOf(ts) && id !in G.Ids(ts[0]);
    }
  }

  lemma DistinctParts(x: nat, a: seq<nat>, b: seq<nat>)
    requires G.Distinct([x] + a + b)
    ensures G.Distinct(a) && G.Distinct(b) && x !in a && x !in b
    ensures forall y :: y in a ==> y !in b
  {
    var all := [x] + a + b;
    assert all[0] == x;
    forall i | 0 <= i < |a| ensures all[1 + i] == a[i] {
    }
    forall i | 0 <= i < |b| ensures all[1 + |a| + i] == b[i] {
    }
  }

  /** So the statements about represented trees are about something. */
  lemma EveryTreeIsRepresented(n: BraceAst.Node) returns (g: G.Graph, v: G.Value)
    ensures Represents(g, v, n)
  {
    var t := Numbered(Skeleton(n), 0);
    NumberedCounts(Skeleton(n), 0);
    NumberedStrips(Skeleton(n), 0);
    SkeletonIsBare(n);
    g, v := (id: nat) => NodesAt([t], id), G.Ref(t.id);
    assert G.IdsOf([t]) == G.Ids(t);
    ForestHolds(g, [t], 0);
    HoldsUnfolds(g, t);
    assert RepresentsAs(g, v, n, t);
  }

  // --- where the guards part ---

  /** The objects the parser builds for a pattern's text. */
  ghost predicate Parsed(g: G.Graph, v: G.Value, p: Pattern) {
    Represents(g, v, Tree(Run(Initial(), Text(p), 0)))
  }

  /** The text guard accepts texts up to 10000 characters with nesting up to 64. A brace's own
      delimiters lie one level below it and count as nodes, so the tree guard accepts nesting up
      to 63 and at most 10000 nodes. A text that the one accepts is refused by the other, once
      parsed, exactly when it is nested 64 deep or has more than 10000 nodes. */
  lemma {:induction false} GuardsCompared(p: Pattern, g: G.Graph, v: G.Value)
    requires WellFormed(p, true) && Parsed(g, v, p)
    ensures GuardAccepts(Text(p)) <==> |Text(p)| <= 10000 && Depth(p) <= 64
    ensures G.SmallTree(g, v) <==> Depth(p) <= 63 && NodeCount(p) <= 10000
    ensures GuardAccepts(Text(p)) && !G.SmallTree(g, v)
            <==> |Text(p)| <= 10000 && Depth(p) <= 64 && (Depth(p) == 64 || NodeCount(p) > 10000)
  {
    hide Depth, Peak, HeightAtMost, Count, NodeCount, Represents;
    PatternPeak(0, p, true);
    PrefixesPeak(Text(p), MAX_DEPTH);
    ParsesToTree(p);
    TreeHeight(p, 64);
    TreeCount(p);
    SmallWhenRepresented(g, v, TreeOf(p));
  }

  // --- an input for each way to part ---

  /** `{{{...,},},}` with `n` braces inside each other. */
  function Nested(n: nat): (p: Pattern) {
    if n == 0 then Nil else Group(More(Nested(n - 1), Last(Nil)), Nil)
  }

  /** `{,}` written `n` times. */
  function Repeated(n: nat): (p: Pattern) {
    if n == 0 then Nil else Group(More(Nil, Last(Nil)), Repeated(n - 1))
  }

  lemma {:induction false} NestedWellFormed(n: nat, top: bool)
    ensures WellFormed(Nested(n), top)
  {
    if n > 0 {
      NestedWellFormed(n - 1, false);
      GroupWellFormed(Nested(n - 1), top);
    }
  }

  lemma {:induction false} GroupWellFormed(inner: Pattern, top: bool)
    requires WellFormed(inner, false)
    ensures WellFormed(Group(More(inner, Last(Nil)), Nil), top)
  {
    var none := Last(Nil);
    assert WellFormed(Nil, false) && WellFormed(Nil, top);
    assert WellFormedAlts(none);
    assert WellFormedAlts(More(inner, none));
  }

  lemma {:induction false} NestedDepth(n: nat)
    ensures Depth(Nested(n)) == n
  {
    if n > 0 {
      NestedDepth(n - 1);
      GroupDepth(Nested(n - 1));
    }
  }

  lemma {:induction false} GroupDepth(inner: Pattern)
    ensures Depth(Group(More(inner, Last(Nil)), Nil)) == Depth(inner) + 1
  {
    assert DepthOf(Last(Nil)) == 0;
  }

  lemma {:induction false} NestedSize(n: nat)
    ensures |Text(Nested(n))| == 3 * n && NodesOf(Nested(n), false) == 4 * n
  {
    if n > 0 {
      NestedSize(n - 1);
      var inner := Nested(n - 1);
      assert AltsText(More(inner, Last(Nil))) == Text(inner) + "," + "";
      assert NodesOfAlts(More(inner, Last(Nil))) == NodesOf(inner, false) + 1;
    }
  }

  lemma {:induction false} RepeatedMeasures(n: nat)
    ensures WellFormed(Repeated(n), true) && Depth(Repeated(n)) <= 1
    ensures |Text(Repeated(n))| == 3 * n && NodesOf(Repeated(n), false) == 4 * n
  {
    hide Text, Depth, NodesOf, WellFormed;
    if n > 0 {
      RepeatedMeasures(n - 1);
      OneMoreMeasured(Repeated(n - 1));
    } else {
      NilMeasured();
    }
  }

  lemma NilMeasured()
    ensures WellFormed(Nil, true) && Depth(Nil) == 0 && Text(Nil) == "" && NodesOf(Nil, false) == 0
  {
  }

  lemma {:induction false} OneMoreMeasured(rest: Pattern)
    ensures var p := Group(More(Nil, Last(Nil)), rest);
      && (WellFormed(rest, true) ==> WellFormed(p, true)) && Depth(p) == Larger(1, Depth(rest))
      && |Text(p)| == 3 + |Text(rest)| && NodesOf(p, false) == 4 + NodesOf(rest, false)
  {
    var none := Last(Nil);
    assert WellFormed(Nil, false) && WellFormedAlts(none) && WellFormedAlts(More(Nil, none));
    assert DepthOf(none) == 0 && DepthOf(More(Nil, none)) == 0;
    assert AltsText(none) == "" && AltsText(More(Nil, none)) == "" + "," + "";
    assert NodesOfAlts(none) == 0 && NodesOfAlts(More(Nil, none)) == 1;
  }

  /** Nested 64 deep: 192 characters and 259 nodes, accepted as text and refused as a tree. */
  lemma TooDeepAsTree(g: G.Graph, v: G.Value)
    requires Parsed(g, v, Nested(64))
    ensures GuardAccepts(Text(Nested(64))) && NodeCount(Nested(64)) == 259 && !G.SmallTree(g, v)
  {
    NestedWellFormed(64, true);
    NestedDepth(64);
    NestedSize(64);
    GuardsCompared(Nested(64), g, v);
  }

  /** `{,}` 2500 times: 7500 characters nested once, accepted as text; 10003 nodes, refused
      as a tree. */
  lemma TooLargeAsTree(g: G.Graph, v: G.Value)
    requires Parsed(g, v, Repeated(2500))
    ensures GuardAccepts(Text(Repeated(2500))) && Depth(Repeated(2500)) <= 1
    ensures NodeCount(Repeated(2500)) == 10003 && !G.SmallTree(g, v)
  {
    RepeatedMeasures(2500);
    GuardsCompared(Repeated(2500), g, v);
  }
}
