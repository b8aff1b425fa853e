/** Expanding a parsed pattern yields exactly the strings it stands for, in order. */
module BraceMeaning {
  import opened BraceAst
  import opened BracePattern
  import opened BraceExpand

  // --- sizes ---

  /** Number of strings a pattern stands for: a product along the pattern, a sum over
      the alternatives of a brace. */
  function Size(p: Pattern): (n: nat) {
    match p
    case Nil => 1
    case Char(_, rest) => Size(rest)
    case Group(alts, rest) => SizeAlts(alts) * Size(rest)
  }

  function SizeAlts(alts: Alts): (n: nat) {
    match alts
    case Last(p) => Size(p)
    case More(p, others) => Size(p) + SizeAlts(others)
  }

  lemma {:induction false} DenoteSize(p: Pattern)
    ensures |Denote(p)| == Size(p) > 0
  {
    match p
    case Nil =>
    case Char(_, rest) => DenoteSize(rest);
    case Group(alts, rest) =>
      DenoteAltsSize(alts);
      DenoteSize(rest);
      PositiveProduct(|DenoteGroup(alts)|, |Denote(rest)|);
  }

  lemma PositiveProduct(a: nat, b: nat)
    requires a > 0 && b > 0
    ensures a * b > 0
  {
  }

  lemma {:induction false} DenoteAltsSize(alts: Alts)
    ensures |DenoteAlts(alts)| == SizeAlts(alts) > 0
  {
    match alts
    case Last(p) => DenoteSize(p);
    case More(p, others) =>
      DenoteSize(p);
      DenoteAltsSize(others);
  }

  // --- queues ---

  lemma {:induction false} JoinTwice(q: seq<seq<string>>, a: seq<string>, b: seq<string>)
    requires |a| > 0 && |b| > 0
    ensures Join(Join(q, a), b) == Join(q, Cross(a, b))
  {
    hide Cross;
    var last := if |q| == 0 then [""] else q[|q| - 1];
    CrossAssociative(last, a, b);
    PositiveProduct(|a|, |b|);
    CrossLength(a, b);
  }

  lemma {:induction false} CrossLength(a: seq<string>, b: seq<string>)
    ensures |Cross(a, b)| == |a| * |b|
  {
  }

  lemma {:induction false} PrefixedIsCross(c: char, b: seq<string>)
    ensures Prefixed([c], b) == Cross([[c]], b)
  {
    CrossOne([c], b);
  }

  /** A queue that ends in the lone empty string takes a list as its last element. */
  lemma JoinFresh(q: seq<seq<string>>, more: seq<string>)
    requires |more| > 0
    ensures Join(q + [[""]], more) == q + [more]
    ensures Join([], more) == [more]
  {
    CrossUnit(more);
    assert (q + [[""]])[..|q|] == q;
  }

  // --- walking what the parser built ---

  /** Text leaves at the end are not empty. */
  predicate TextOk(nodes: seq<Node>) {
    |nodes| > 0 && (nodes[|nodes| - 1].Leaf? && nodes[|nodes| - 1].kind == Kind.Text ==> nodes[|nodes| - 1].value != "")
  }

  lemma {:induction false} WalkSnoc(nodes: seq<Node>, child: Node, brace: bool, enclose: bool, start: Queues)
    ensures WalkedAll(nodes + [child], brace, enclose, start)
         == WalkedChild(child, |nodes|, brace, enclose, WalkedAll(nodes, brace, enclose, start))
  {
    assert (nodes + [child])[..|nodes|] == nodes;
  }

  lemma {:induction false} WalkText(v: string, a: bool, f: bool, i: nat, brace: bool, enclose: bool, st: Queues)
    requires v != ""
    ensures WalkedChild(Leaf(Kind.Text, v, a, f), i, brace, enclose, st) == st.(inner := Join(st.inner, [v]))
  {
  }

  lemma {:induction false} AddCharWalk(nodes: seq<Node>, c: char, brace: bool, enclose: bool, start: Queues)
    requires TextOk(nodes)
    ensures var w := WalkedAll(nodes, brace, enclose, start);
      WalkedAll(AddChar(nodes, c), brace, enclose, start) == w.(inner := Join(w.inner, [[c]]))
    ensures TextOk(AddChar(nodes, c))
  {
    hide WalkedChild, Join;
    var last := nodes[|nodes| - 1];
    if last.Leaf? && last.kind == Kind.Text {
      var init := nodes[..|nodes| - 1];
      var w := WalkedAll(init, brace, enclose, start);
      assert nodes == init + [last];
      WalkSnoc(init, last, brace, enclose, start);
      WalkText(last.value, last.afterComma, last.invalid, |init|, brace, enclose, w);
      WalkSnoc(init, Leaf(Kind.Text, last.value + [c], last.afterComma, last.invalid), brace, enclose, start);
      WalkText(last.value + [c], last.afterComma, last.invalid, |init|, brace, enclose, w);
      JoinTwice(w.inner, [last.value], [[c]]);
      CrossSingle(last.value, [c]);
    } else {
      WalkSnoc(nodes, Leaf(Kind.Text, [c], AfterComma(nodes), false), brace, enclose, start);
      WalkText([c], AfterComma(nodes), false, |nodes|, brace, enclose, WalkedAll(nodes, brace, enclose, start));
    }
  }

  lemma {:induction false} CharDenotes(q: seq<seq<string>>, c: char, rest: Pattern)
    ensures (if rest.Nil? then Join(q, [[c]]) else Join(Join(q, [[c]]), Denote(rest)))
         == Join(q, Denote(Char(c, rest)))
  {
    hide Join;
    if rest.Nil? {
      assert [c] + "" == [c];
      assert Prefixed([c], [""]) == [[c]];
    } else {
      DenoteSize(rest);
      JoinTwice(q, [[c]], Denote(rest));
      PrefixedIsCross(c, Denote(rest));
    }
  }

  lemma {:induction false} DenoteGroupSize(alts: Alts)
    ensures |DenoteGroup(alts)| == SizeAlts(alts) > 0
  {
    DenoteAltsSize(alts);
  }

  lemma {:induction false} GroupDenotes(q: seq<seq<string>>, alts: Alts, rest: Pattern)
    ensures (if rest.Nil? then Join(q, DenoteGroup(alts)) else Join(Join(q, DenoteGroup(alts)), Denote(rest)))
         == Join(q, Denote(Group(alts, rest)))
  {
    hide Join;
    DenoteGroupSize(alts);
    DenoteSize(rest);
    if rest.Nil? {
      CrossUnitRight(DenoteGroup(alts));
    } else {
      JoinTwice(q, DenoteGroup(alts), Denote(rest));
    }
  }

  /** Walking the nodes of a pattern joins its strings to the queue. */
  lemma {:induction false} ExtendWalk(nodes: seq<Node>, p: Pattern, top: bool, brace: bool, enclose: bool,
                                      start: Queues)
    requires TextOk(nodes) && WellFormed(p, top)
    ensures var w := WalkedAll(nodes, brace, enclose, start);
      WalkedAll(Extend(nodes, p), brace, enclose, start)
        == if p.Nil? then w else w.(inner := Join(w.inner, Denote(p)))
    ensures TextOk(Extend(nodes, p)) && |Extend(nodes, p)| >= |nodes|
    ensures p != Nil ==> |Extend(nodes, p)| > |nodes| || nodes[|nodes| - 1].kind == Kind.Text
    decreases p, 0
  {
    hide WalkedChild, Join, Denote, AddChar, WalkedAll;
    var w := WalkedAll(nodes, brace, enclose, start);
    match p
    case Nil =>
    case Char(c, rest) =>
      AddCharWalk(nodes, c, brace, enclose, start);
      AddCharGrows(nodes, c);
      ExtendWalk(AddChar(nodes, c), rest, top, brace, enclose, start);
      CharDenotes(w.inner, c, rest);
    case Group(alts, rest) =>
      WalkSnoc(nodes, BraceNode(alts), brace, enclose, start);
      GroupWalk(alts, |nodes|, brace, enclose, w);
      ExtendWalk(nodes + [BraceNode(alts)], rest, top, brace, enclose, start);
      GroupDenotes(w.inner, alts, rest);
  }

  lemma AddCharGrows(nodes: seq<Node>, c: char)
    requires |nodes| > 0
    ensures |AddChar(nodes, c)|
            == |nodes| + if nodes[|nodes| - 1].Leaf? && nodes[|nodes| - 1].kind == Kind.Text then 0 else 1
  {
  }

  /** The lists of the alternatives, one for each. */
  function AltLists(alts: Alts): (q: seq<seq<string>>)
    ensures |q| > 0
  {
    match alts
    case Last(p) => [Denote(p)]
    case More(p, others) => [Denote(p)] + AltLists(others)
  }

  lemma {:induction false} UnionCons(a: seq<string>, q: seq<seq<string>>)
    ensures Union([a] + q) == a + Union(q)
  {
    if |q| == 0 {
      assert [a] + q == [a] && [a][..0] == [];
      assert Union([a][..0]) == [];
    } else {
      assert ([a] + q)[..|q|] == [a] + q[..|q| - 1];
      UnionCons(a, q[..|q| - 1]);
    }
  }

  lemma {:induction false} UnionOfAlternatives(alts: Alts)
    ensures Union(AltLists(alts)) == DenoteAlts(alts)
  {
    match alts
    case Last(p) => UnionCons(Denote(p), []);
    case More(p, others) =>
      UnionOfAlternatives(others);
      UnionCons(Denote(p), AltLists(others));
  }

  /** One alternative after a comma fills in the list the comma has opened. */
  lemma {:induction false} AltWalk(nodes: seq<Node>, p: Pattern, start: Queues, q: seq<seq<string>>)
    requires |nodes| > 1 && TextOk(nodes) && nodes[|nodes| - 1].kind == Comma && WellFormed(p, false)
    requires WalkedAll(nodes, true, false, start).inner == q + [[""]]
    ensures WalkedAll(Extend(nodes, p), true, false, start)
         == WalkedAll(nodes, true, false, start).(inner := q + [Denote(p)])
    ensures |Extend(nodes, p)| > 1 && TextOk(Extend(nodes, p))
    decreases p, 1
  {
    hide WalkedAll, Join, Denote;
    ExtendWalk(nodes, p, false, true, false, start);
    if !p.Nil? {
      DenoteSize(p);
      JoinFresh(q, Denote(p));
    } else {
      DenoteNil();
    }
  }

  /** Walking the alternatives after a comma fills in one list for each. */
  lemma {:induction false} AltsWalk(nodes: seq<Node>, alts: Alts, start: Queues, q: seq<seq<string>>)
    requires |nodes| > 1 && TextOk(nodes) && nodes[|nodes| - 1].kind == Comma && WellFormedAlts(alts)
    requires WalkedAll(nodes, true, false, start).inner == q + [[""]]
    ensures WalkedAll(ExtendAlts(nodes, alts), true, false, start)
         == WalkedAll(nodes, true, false, start).(inner := q + AltLists(alts))
    decreases alts, 0
  {
    hide WalkedAll, Denote, Extend;
    var p := alts.p;
    var after := Extend(nodes, p);
    AltWalk(nodes, p, start, q);
    if alts.More? {
      WalkSnoc(after, Leaf(Comma, ",", AfterComma(after), false), true, false, start);
      AltsWalk(AddComma(after), alts.others, start, q + [Denote(p)]);
      assert q + [Denote(p)] + AltLists(alts.others) == q + AltLists(alts);
    }
  }

  lemma DenoteNil()
    ensures Denote(Nil) == [""]
  {
  }

  /** The first alternative: its comma supplies the missing empty string. */
  lemma {:induction false} BraceWalk(alts: Alts, q: seq<seq<string>>)
    requires alts.More? && WellFormedAlts(alts)
    ensures WalkedAll(ExtendAlts([OPEN], alts), true, false, Queues([], q)) == Queues(AltLists(alts), q)
    decreases alts, 1
  {
    hide WalkedAll, Join, Denote;
    var start := Queues([], q);
    WalkOpen(start, false);
    var p := alts.p;
    ExtendWalk([OPEN], p, false, true, false, start);
    var after := Extend([OPEN], p);
    if !p.Nil? {
      DenoteSize(p);
      JoinFresh([], Denote(p));
    } else {
      DenoteNil();
    }
    WalkSnoc(after, Leaf(Comma, ",", AfterComma(after), false), true, false, start);
    assert WalkedAll(AddComma(after), true, false, start).inner == [Denote(p)] + [[""]];
    AltsWalk(AddComma(after), alts.others, start, [Denote(p)]);
  }

  lemma {:induction false} WalkOpen(start: Queues, enclose: bool)
    ensures WalkedAll([OPEN], true, enclose, start) == start
  {
    assert [OPEN][..0] == [];
    assert WalkedAll([OPEN][..0], true, enclose, start) == start;
  }

  /** A brace with one alternative, whose strings are enclosed when its end is reached. */
  lemma {:induction false} PlainBraceWalk(p: Pattern, q: seq<seq<string>>)
    requires p != Nil && WellFormed(p, false)
    ensures WalkedAll(Extend([OPEN], p), true, true, Queues([], q)) == Queues([Denote(p)], q)
    ensures |Extend([OPEN], p)| > 1
    decreases p, 1
  {
    hide WalkedAll, Join, Denote;
    WalkOpen(Queues([], q), true);
    ExtendWalk([OPEN], p, false, true, true, Queues([], q));
    DenoteSize(p);
    JoinFresh([], Denote(p));
  }

  lemma BracedIsEnclosed(ss: seq<string>)
    ensures Enclose(true, ss) == Braced(ss)
  {
  }

  lemma {:induction false} BraceIsWalked(alts: Alts, i: nat, brace: bool, enclose: bool, w: Queues)
    ensures WalkedChild(BraceNode(alts), i, brace, enclose, w) == w.(inner := Walked(BraceNode(alts), w.inner))
  {
    hide WalkedAll, Join, ExtendAlts;
  }

  /** A brace that is not empty hands its queue on at its closing character. */
  lemma {:induction false} BraceHandsOn(alts: Alts, enclose: bool, q: seq<seq<string>>, lists: seq<seq<string>>)
    requires |ExtendAlts([OPEN], alts)| > 1 && enclose == (CountCommas(alts) == 0)
    requires WalkedAll(ExtendAlts([OPEN], alts), true, enclose, Queues([], q)) == Queues(lists, q)
    ensures Walked(BraceNode(alts), q) == Join(q, Enclose(enclose, Union(lists)))
  {
    hide WalkedAll, Join, ExtendAlts, Union;
    var nodes := ExtendAlts([OPEN], alts);
    WalkSnoc(nodes, Leaf(Close, "}", AfterComma(nodes), false), true, enclose, Queues([], q));
  }

  lemma {:induction false} EmptyBraceWalk(q: seq<seq<string>>)
    ensures Walked(BraceNode(Last(Nil)), q) == Join(q, DenoteGroup(Last(Nil)))
  {
    hide Join, WalkedAll;
    assert |BraceNode(Last(Nil)).nodes| == 2;
    assert "{" + "" + "}" == "{}";
    assert DenoteGroup(Last(Nil)) == ["{}"];
  }

  lemma {:induction false} PlainGroupWalk(p: Pattern, q: seq<seq<string>>)
    requires p != Nil && WellFormed(p, false)
    ensures Walked(BraceNode(Last(p)), q) == Join(q, DenoteGroup(Last(p)))
    decreases p, 2
  {
    hide WalkedAll, Walked, Join, Denote, Extend;
    PlainBraceWalk(p, q);
    BraceHandsOn(Last(p), true, q, [Denote(p)]);
    UnionCons(Denote(p), []);
    assert [Denote(p)] + [] == [Denote(p)] && Union([]) == [];
    assert Union([Denote(p)]) == Denote(p);
    BracedIsEnclosed(Denote(p));
    assert ExtendAlts([OPEN], Last(p)) == Extend([OPEN], p);
    assert DenoteGroup(Last(p)) == Braced(DenoteAlts(Last(p))) == Braced(Denote(p));
  }

  lemma {:induction false} CommaGroupWalk(alts: Alts, q: seq<seq<string>>)
    requires alts.More? && WellFormedAlts(alts)
    ensures Walked(BraceNode(alts), q) == Join(q, DenoteGroup(alts))
    decreases alts, 2
  {
    hide WalkedAll, Walked, Join, DenoteAlts, WellFormedAlts;
    BraceWalk(alts, q);
    BraceHasThree(alts);
    BraceHandsOn(alts, false, q, AltLists(alts));
    UnionOfAlternatives(alts);
  }

  /** Walking a brace joins what it stands for. */
  lemma {:induction false} GroupWalk(alts: Alts, i: nat, brace: bool, enclose: bool, w: Queues)
    requires WellFormedAlts(alts)
    ensures WalkedChild(BraceNode(alts), i, brace, enclose, w) == w.(inner := Join(w.inner, DenoteGroup(alts)))
    decreases alts, 3
  {
    hide WalkedChild, Walked, Join, DenoteGroup;
    BraceIsWalked(alts, i, brace, enclose, w);
    if alts.More? {
      CommaGroupWalk(alts, w.inner);
    } else if alts.p == Nil {
      EmptyBraceWalk(w.inner);
    } else {
      PlainGroupWalk(alts.p, w.inner);
    }
  }

  lemma {:induction false} ExtendKeepsNodes(nodes: seq<Node>, p: Pattern)
    ensures |Extend(nodes, p)| >= |nodes|
    decreases p
  {
    match p
    case Nil =>
    case Char(c, rest) => ExtendKeepsNodes(AddChar(nodes, c), rest);
    case Group(alts, rest) => ExtendKeepsNodes(nodes + [BraceNode(alts)], rest);
  }

  lemma {:induction false} ExtendAltsKeepsNodes(nodes: seq<Node>, alts: Alts)
    ensures |ExtendAlts(nodes, alts)| >= |nodes|
    decreases alts
  {
    match alts
    case Last(p) => ExtendKeepsNodes(nodes, p);
    case More(p, others) =>
      ExtendKeepsNodes(nodes, p);
      ExtendAltsKeepsNodes(AddComma(Extend(nodes, p)), others);
  }

  lemma {:induction false} BraceHasThree(alts: Alts)
    requires alts.More?
    ensures |BraceNode(alts).nodes| > 2
  {
    ExtendKeepsNodes([OPEN], alts.p);
    ExtendAltsKeepsNodes(AddComma(Extend([OPEN], alts.p)), alts.others);
  }

  /** Expanding the parser's tree of a pattern lists exactly the strings it stands for;
      the empty pattern expands to nothing. */
  lemma {:induction false} ExpansionDenotes(p: Pattern)
    requires WellFormed(p, true)
    ensures Expansion(TreeOf(p)) == if p.Nil? then [] else Denote(p)
  {
    hide WalkedAll, Denote;
    var start := Queues([], []);
    WalkBos(start);
    ExtendWalk([BOS], p, true, false, false, start);
    WalkSnoc(Extend([BOS], p), EOS, false, false, start);
    if !p.Nil? {
      DenoteSize(p);
      JoinFresh([], Denote(p));
      UnionCons(Denote(p), []);
    }
  }

  lemma {:induction false} WalkBos(start: Queues)
    ensures WalkedAll([BOS], false, false, start) == start
  {
    assert [BOS][..0] == [];
    assert WalkedAll([BOS][..0], false, false, start) == start;
  }

  // --- the tree may be walked ---

  lemma {:induction false} ExtendWalkable(nodes: seq<Node>, p: Pattern, brace: bool)
    requires AllWalkable(nodes, brace)
    ensures AllWalkable(Extend(nodes, p), brace)
    decreases p, 0
  {
    match p
    case Nil =>
    case Char(c, rest) => ExtendWalkable(AddChar(nodes, c), rest, brace);
    case Group(alts, rest) =>
      BraceWalkable(alts);
      ExtendWalkable(nodes + [BraceNode(alts)], rest, brace);
  }

  lemma {:induction false} ExtendAltsWalkable(nodes: seq<Node>, alts: Alts)
    requires AllWalkable(nodes, true)
    ensures AllWalkable(ExtendAlts(nodes, alts), true)
    decreases alts, 0
  {
    match alts
    case Last(p) => ExtendWalkable(nodes, p, true);
    case More(p, others) =>
      ExtendWalkable(nodes, p, true);
      ExtendAltsWalkable(AddComma(Extend(nodes, p)), others);
  }

  lemma {:induction false} BraceWalkable(alts: Alts)
    ensures Walkable(BraceNode(alts))
    decreases alts, 1
  {
    hide ExtendAlts;
    ExtendAltsWalkable([OPEN], alts);
  }

  /** The walker's demands are met by every pattern's tree. */
  lemma TreeWalkable(p: Pattern)
    ensures AllWalkable(TreeOf(p).nodes, false)
  {
    ExtendWalkable([BOS], p, false);
  }
}
