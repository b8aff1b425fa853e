/** The second back end: a parsed pattern as regular-expression text, what that text
    means, and exactly when it means the same as the expansion. */
module BraceRegex {
  import opened Prelude
  import opened BraceAst
  import opened BracePattern
  import opened BraceExpand
  import opened BraceMeaning

  // --- the compiler ---

  /** A brace whose own characters are printed literally. Without numeric ranges the shift
      of the comma count by the range count leaves the comma count. */
  predicate IsInvalidBrace(block: Node) {
    block.Block? && block.kind == Brace && (block.invalid || block.dollar || block.commas == 0 || !block.closed)
  }

  function CompileNode(node: Node, invalid: bool): (s: string)
    decreases node, 0
  {
    match node
    case Leaf(kind, value, afterComma, _) =>
      if kind == Open then (if invalid then value else "(")
      else if kind == Close then (if invalid then value else ")")
      else if kind == Comma then (if afterComma then "" else if invalid then value else "|")
      else value
    case Block(_, own, nodes, _, _, _, _, _) =>
      if own.Some? && own.value != "" then own.value else CompileAll(nodes, IsInvalidBrace(node))
  }

  function CompileAll(nodes: seq<Node>, invalid: bool): (s: string)
    decreases nodes, 1
  {
    if |nodes| == 0 then ""
    else CompileAll(nodes[..|nodes| - 1], invalid) + CompileNode(nodes[|nodes| - 1], invalid)
  }

  // --- the text it produces ---

  /** A brace with commas is a group; without one it is text. */
  function RegexText(p: Pattern): (s: string) {
    match p
    case Nil => ""
    case Char(c, rest) => [c] + RegexText(rest)
    case Group(alts, rest) =>
      (if alts.More? then "(" + AltsRegexText(alts) + ")" else "{" + AltsRegexText(alts) + "}") + RegexText(rest)
  }

  function AltsRegexText(alts: Alts): (s: string) {
    match alts
    case Last(p) => RegexText(p)
    case More(p, others) => RegexText(p) + "|" + AltsRegexText(others)
  }

  /** The pattern the compiler takes a pattern for: an empty alternative between two commas
      is gone. */
  function Compacted(p: Pattern): (c: Pattern)
    ensures c == Nil <==> p == Nil
    decreases p, 0
  {
    match p
    case Nil => Nil
    case Char(c, rest) => Char(c, Compacted(rest))
    case Group(alts, rest) => Group(CompactedAlts(alts, true), Compacted(rest))
  }

  function CompactedAlts(alts: Alts, first: bool): (c: Alts)
    ensures first ==> c.More? == alts.More?
    decreases alts, 0
  {
    match alts
    case Last(p) => Last(Compacted(p))
    case More(p, others) =>
      if p == Nil && !first then CompactedAlts(others, false)
      else More(Compacted(p), CompactedAlts(others, false))
  }

  /** No two commas of a brace are adjacent: only the first and the last alternative may
      be empty. */
  predicate Spaced(p: Pattern) {
    match p
    case Nil => true
    case Char(_, rest) => Spaced(rest)
    case Group(alts, rest) => SpacedAlts(alts, true) && Spaced(rest)
  }

  predicate SpacedAlts(alts: Alts, first: bool) {
    match alts
    case Last(p) => Spaced(p)
    case More(p, others) => (p != Nil || first) && Spaced(p) && SpacedAlts(others, false)
  }

  lemma {:induction false} SpacedIsCompact(p: Pattern)
    requires Spaced(p)
    ensures Compacted(p) == p
    decreases p, 0
  {
    match p
    case Nil =>
    case Char(_, rest) => SpacedIsCompact(rest);
    case Group(alts, rest) =>
      SpacedAltsAreCompact(alts, true);
      SpacedIsCompact(rest);
  }

  lemma {:induction false} SpacedAltsAreCompact(alts: Alts, first: bool)
    requires SpacedAlts(alts, first)
    ensures CompactedAlts(alts, first) == alts
    decreases alts, 0
  {
    match alts
    case Last(p) => SpacedIsCompact(p);
    case More(p, others) =>
      SpacedIsCompact(p);
      SpacedAltsAreCompact(others, false);
  }

  lemma {:induction false} CompileSnoc(nodes: seq<Node>, child: Node, invalid: bool)
    ensures CompileAll(nodes + [child], invalid) == CompileAll(nodes, invalid) + CompileNode(child, invalid)
  {
    assert (nodes + [child])[..|nodes|] == nodes;
  }

  lemma {:induction false} LongerText(init: seq<Node>, v: string, a: bool, f: bool, c: char, invalid: bool)
    ensures CompileAll(init + [Leaf(Kind.Text, v + [c], a, f)], invalid)
        == CompileAll(init + [Leaf(Kind.Text, v, a, f)], invalid) + [c]
  {
    hide CompileAll, CompileNode;
    CompileSnoc(init, Leaf(Kind.Text, v, a, f), invalid);
    CompileSnoc(init, Leaf(Kind.Text, v + [c], a, f), invalid);
    TextCompiles(v, a, f, invalid);
    TextCompiles(v + [c], a, f, invalid);
  }

  lemma {:induction false} AddCharCompiles(nodes: seq<Node>, c: char, invalid: bool)
    requires |nodes| > 0
    ensures CompileAll(AddChar(nodes, c), invalid) == CompileAll(nodes, invalid) + [c]
  {
    hide CompileAll, CompileNode, AfterComma, AddChar;
    var last, init := nodes[|nodes| - 1], nodes[..|nodes| - 1];
    AddCharSpelled(nodes, c);
    if last.Leaf? && last.kind == Kind.Text {
      SplitLast(nodes);
      LongerText(init, last.value, last.afterComma, last.invalid, c, invalid);
    } else {
      CompileSnoc(nodes, Leaf(Kind.Text, [c], AfterComma(nodes), false), invalid);
      TextCompiles([c], AfterComma(nodes), false, invalid);
    }
  }

  lemma AddCharSpelled(nodes: seq<Node>, c: char)
    requires |nodes| > 0
    ensures var last := nodes[|nodes| - 1];
            AddChar(nodes, c) ==
            if last.Leaf? && last.kind == Kind.Text then
              nodes[..|nodes| - 1] + [Leaf(Kind.Text, last.value + [c], last.afterComma, last.invalid)]
            else nodes + [Leaf(Kind.Text, [c], AfterComma(nodes), false)]
  {
  }

  lemma SplitLast(nodes: seq<Node>)
    requires |nodes| > 0 && nodes[|nodes| - 1].Leaf? && nodes[|nodes| - 1].kind == Kind.Text
    ensures var last := nodes[|nodes| - 1];
            nodes == nodes[..|nodes| - 1] + [Leaf(Kind.Text, last.value, last.afterComma, last.invalid)]
  {
  }

  lemma {:induction false} TextCompiles(v: string, a: bool, f: bool, invalid: bool)
    ensures CompileNode(Leaf(Kind.Text, v, a, f), invalid) == v
  {
  }

  /** A pattern's nodes compile to the compacted pattern's regular expression. */
  lemma {:induction false} ExtendCompiles(nodes: seq<Node>, p: Pattern, top: bool, invalid: bool)
    requires |nodes| > 0 && WellFormed(p, top)
    ensures CompileAll(Extend(nodes, p), invalid) == CompileAll(nodes, invalid) + RegexText(Compacted(p))
    ensures |Extend(nodes, p)| > 0 && (p != Nil ==> !AfterComma(Extend(nodes, p)))
    decreases p, 0
  {
    hide CompileAll, AddChar, CompactedAlts, CompileNode;
    match p
    case Nil =>
    case Char(c, rest) =>
      AddCharCompiles(nodes, c, invalid);
      AddCharIsText(nodes, c);
      ExtendCompiles(AddChar(nodes, c), rest, top, invalid);
    case Group(alts, rest) =>
      CompileSnoc(nodes, BraceNode(alts), invalid);
      BraceCompiles(alts, invalid);
      ExtendCompiles(nodes + [BraceNode(alts)], rest, top, invalid);
  }

  lemma AddCharIsText(nodes: seq<Node>, c: char)
    ensures !AfterComma(AddChar(nodes, c))
  {
  }

  lemma {:induction false} AltsCompile(nodes: seq<Node>, alts: Alts, first: bool)
    requires |nodes| > 0 && WellFormedAlts(alts) && (first <==> !AfterComma(nodes))
    ensures CompileAll(ExtendAlts(nodes, alts), false)
         == CompileAll(nodes, false) + AltsRegexText(CompactedAlts(alts, first))
    decreases alts, 0
  {
    hide CompileAll, CompileNode, Extend, Compacted, WellFormed, AfterComma, RegexText;
    match alts
    case Last(p) =>
      ExtendCompiles(nodes, p, false, false);
    case More(p, others) =>
      ExtendCompiles(nodes, p, false, false);
      var after := Extend(nodes, p);
      CompileSnoc(after, Leaf(Comma, ",", AfterComma(after), false), false);
      CommaCompiles(AfterComma(after));
      CommaLast(after);
      AltsCompile(AddComma(after), others, false);
      if p == Nil {
        NothingAdded(nodes);
      }
  }

  lemma CommaCompiles(after: bool)
    ensures CompileNode(Leaf(Comma, ",", after, false), false) == if after then "" else "|"
  {
  }

  lemma CommaLast(nodes: seq<Node>)
    ensures AfterComma(AddComma(nodes))
  {
  }

  lemma {:induction false} NothingAdded(nodes: seq<Node>)
    ensures CompileAll(nodes, false) + RegexText(Compacted(Nil)) == CompileAll(nodes, false)
    ensures Extend(nodes, Nil) == nodes
  {
  }

  lemma {:induction false} CommaBraceCompiles(alts: Alts, invalid: bool)
    requires alts.More? && WellFormedAlts(alts)
    ensures CompileNode(BraceNode(alts), invalid) == "(" + AltsRegexText(CompactedAlts(alts, true)) + ")"
    decreases alts, 1
  {
    hide CompileAll, ExtendAlts, CompactedAlts;
    AltsCompile([OPEN], alts, true);
    CompileOpen();
    var nodes := ExtendAlts([OPEN], alts);
    CompileSnoc(nodes, Leaf(Close, "}", AfterComma(nodes), false), false);
  }

  /** Without a comma the braces are compiled as they are written. */
  lemma {:induction false} PlainBraceCompiles(p: Pattern, invalid: bool)
    requires WellFormed(p, false)
    ensures CompileNode(BraceNode(Last(p)), invalid) == "{" + RegexText(Compacted(p)) + "}"
    decreases p, 1
  {
    hide CompileAll, Extend, Compacted;
    ExtendCompiles([OPEN], p, false, true);
    CompileOpen();
    var nodes := Extend([OPEN], p);
    assert ExtendAlts([OPEN], Last(p)) == nodes && CountCommas(Last(p)) == 0;
    CompileSnoc(nodes, Leaf(Close, "}", AfterComma(nodes), false), true);
  }

  lemma {:induction false} BraceCompiles(alts: Alts, invalid: bool)
    requires WellFormedAlts(alts)
    ensures RegexText(Group(CompactedAlts(alts, true), Nil)) == CompileNode(BraceNode(alts), invalid)
    ensures forall rest :: RegexText(Group(CompactedAlts(alts, true), rest))
                           == RegexText(Group(CompactedAlts(alts, true), Nil)) + RegexText(rest)
    decreases alts, 2
  {
    hide CompileNode, Compacted;
    match alts
    case Last(p) =>
      PlainBraceCompiles(p, invalid);
      assert CompactedAlts(alts, true) == Last(Compacted(p));
    case More(_, _) => CommaBraceCompiles(alts, invalid);
  }

  lemma CompileOpen()
    ensures CompileAll([OPEN], false) == "(" && CompileAll([OPEN], true) == "{" && CompileAll([BOS], false) == ""
  {
    assert [OPEN][..0] == [] && [BOS][..0] == [];
    assert forall invalid :: CompileAll([OPEN][..0], invalid) == "";
    assert CompileAll([BOS][..0], false) == "";
  }

  lemma {:induction false} TreeCompiles(p: Pattern)
    requires WellFormed(p, true)
    ensures CompileNode(TreeOf(p), false) == RegexText(Compacted(p))
  {
    hide CompileAll, Extend, Compacted;
    CompileOpen();
    ExtendCompiles([BOS], p, true, false);
    CompileSnoc(Extend([BOS], p), EOS, false);
  }

  // --- regular expressions ---

  /** A fragment of regular expressions: literals, groups, alternatives, the quantifiers,
      greedy or lazy, among them counts in braces, and the start assertion. Groups that begin with a question
      mark (non-capturing, named, look-around) count as ill-formed here; text that spells one
      contains a metacharacter. */
  datatype Re =
    | Empty | Lit(c: char) | Cat(a: Re, b: Re) | Or(a: Re, b: Re)
    | Star(a: Re) | OneOrMore(a: Re) | Maybe(a: Re) | Times(a: Re, min: nat, max: Option<nat>) | Start

  predicate IsQuantifier(c: char) {
    c == '*' || c == '+' || c == '?'
  }

  /** Characters with a meaning of their own. */
  predicate IsMeta(c: char) {
    IsQuantifier(c) || c == '|' || c == '^'
  }

  predicate IsDigit(c: char) {
    '0' <= c <= '9'
  }

  function SkipDigits(s: string): (rest: string)
    ensures |rest| <= |s| && (rest != "" ==> !IsDigit(rest[0]))
  {
    if s != "" && IsDigit(s[0]) then SkipDigits(s[1..]) else s
  }

  /** The number the leading digits spell, after `n`. */
  function LeadingNumber(s: string, n: nat): (v: nat)
    decreases |s|
  {
    if s != "" && IsDigit(s[0]) then LeadingNumber(s[1..], 10 * n + (s[0] as int - '0' as int)) else n
  }

  /** A count in braces, `{m}`, `{m,}` or `{m,n}`: its bounds and what follows it. A brace that
      begins none of these is an ordinary character. */
  function Counted(s: string): (r: Option<(nat, Option<nat>, string)>)
    ensures r.Some? ==> |r.value.2| < |s|
  {
    if |s| < 2 || s[0] != '{' || !IsDigit(s[1]) then None
    else
      var min, rest := LeadingNumber(s[1..], 0), SkipDigits(s[1..]);
      if |rest| > 0 && rest[0] == '}' then Some((min, Some(min), rest[1..]))
      else if |rest| > 1 && rest[0] == ',' && rest[1] == '}' then Some((min, None, rest[2..]))
      else if |rest| > 1 && rest[0] == ',' && IsDigit(rest[1]) then
        var end := SkipDigits(rest[1..]);
        if |end| > 0 && end[0] == '}' then Some((min, Some(LeadingNumber(rest[1..], 0)), end[1..])) else None
      else None
  }

  predicate Stops(s: string) {
    s == "" || s[0] == '|' || s[0] == ')'
  }

  /** Disjunction: alternatives separated by bars. */
  function ParseOr(s: string): (r: Option<(Re, string)>)
    ensures r.Some? ==> |r.value.1| <= |s|
    decreases |s|, 3
  {
    match ParseSeq(s)
    case None => None
    case Some((a, rest)) =>
      if rest == "" || rest[0] != '|' then Some((a, rest))
      else
        match ParseOr(rest[1..])
        case None => None
        case Some((b, end)) => Some((Or(a, b), end))
  }

  function ParseSeq(s: string): (r: Option<(Re, string)>)
    ensures r.Some? ==> |r.value.1| <= |s| && Stops(r.value.1)
    decreases |s|, 2
  {
    if Stops(s) then Some((Empty, s))
    else
      match ParseTerm(s)
      case None => None
      case Some((a, rest)) =>
        match ParseSeq(rest)
        case None => None
        case Some((b, end)) => Some((Cat(a, b), end))
  }

  /** An atom with an optional quantifier. A quantifier with nothing to repeat, or on an
      assertion, is a syntax error. */
  function ParseTerm(s: string): (r: Option<(Re, string)>)
    ensures r.Some? ==> |r.value.1| < |s|
    decreases |s|, 1
  {
    match ParseAtom(s)
    case None => None
    case Some((a, rest)) =>
      match Counted(rest)
      case Some((min, max, more)) =>
        if a.Start? || (max.Some? && max.value < min) then None else Some((Times(a, min, max), SkipLazy(more)))
      case None =>
        if rest == "" || !IsQuantifier(rest[0]) then Some((a, rest))
        else if a.Start? then None
        else
          Some((if rest[0] == '*' then Star(a) else if rest[0] == '+' then OneOrMore(a) else Maybe(a),
                SkipLazy(rest[1..])))
  }

  function SkipLazy(s: string): (rest: string)
    ensures |rest| <= |s|
  {
    if s != "" && s[0] == '?' then s[1..] else s
  }

  function ParseAtom(s: string): (r: Option<(Re, string)>)
    ensures r.Some? ==> |r.value.1| < |s|
    decreases |s|, 0
  {
    if s == "" || IsQuantifier(s[0]) || Counted(s).Some? || s[0] == '|' || s[0] == ')' then None
    else if s[0] == '^' then Some((Start, s[1..]))
    else if s[0] == '(' then
      match ParseOr(s[1..])
      case None => None
      case Some((a, rest)) => if rest != "" && rest[0] == ')' then Some((a, rest[1..])) else None
    else Some((Lit(s[0]), s[1..]))
  }

  function ParseRegex(s: string): (r: Option<Re>) {
    match ParseOr(s)
    case None => None
    case Some((a, rest)) => if rest == "" then Some(a) else None
  }

  /** `re` matches the part of `w` from `i` to `j`. */
  ghost predicate Matches(re: Re, w: string, i: nat, j: nat)
    requires i <= j <= |w|
    decreases re, 0, j - i
  {
    match re
    case Empty => i == j
    case Lit(c) => j == i + 1 && w[i] == c
    case Cat(a, b) => exists k :: i <= k <= j && Matches(a, w, i, k) && Matches(b, w, k, j)
    case Or(a, b) => Matches(a, w, i, j) || Matches(b, w, i, j)
    case Star(a) => Repeats(a, w, i, j)
    case OneOrMore(a) => exists k :: i <= k <= j && Matches(a, w, i, k) && Repeats(a, w, k, j)
    case Maybe(a) => i == j || Matches(a, w, i, j)
    case Times(a, min, max) => Iterates(a, min, max, w, i, j)
    case Start => i == 0 && j == 0
  }

  /** Any number of matches of `a` in a row. */
  ghost predicate Repeats(a: Re, w: string, i: nat, j: nat)
    requires i <= j <= |w|
    decreases a, 1, j - i
  {
    i == j || exists k :: i < k <= j && Matches(a, w, i, k) && Repeats(a, w, k, j)
  }

  /** At least `min` and at most `max` matches of `a` in a row; those beyond `min` are not empty. */
  ghost predicate Iterates(a: Re, min: nat, max: Option<nat>, w: string, i: nat, j: nat)
    requires i <= j <= |w|
    decreases a, 1, min, j - i
  {
    if min > 0 then
      exists k :: i <= k <= j && Matches(a, w, i, k) && Iterates(a, min - 1, OneLess(max), w, k, j)
    else
      || i == j
      || (max != Some(0)
          && exists k :: i < k <= j && Matches(a, w, i, k) && Iterates(a, 0, OneLess(max), w, k, j))
  }

  function OneLess(max: Option<nat>): (r: Option<nat>) {
    match max case Some(n) => Some(if n > 0 then n - 1 else 0) case None => None
  }

  /** The regular expression is well formed and matches, as a whole, exactly `strings`. */
  ghost predicate RegexDenotes(regex: string, strings: seq<string>) {
    match ParseRegex(regex)
    case None => false
    case Some(re) => forall w: string :: Matches(re, w, 0, |w|) <==> w in strings
  }

  // --- patterns without metacharacters ---

  predicate NoMeta(p: Pattern) {
    match p
    case Nil => true
    case Char(c, rest) => !IsMeta(c) && NoMeta(rest)
    case Group(alts, rest) => NoMetaAlts(alts) && NoMeta(rest)
  }

  predicate NoMetaAlts(alts: Alts) {
    match alts
    case Last(p) => NoMeta(p)
    case More(p, others) => NoMeta(p) && NoMetaAlts(others)
  }

  /** A pattern that is a number. */
  predicate IsNumber(p: Pattern) {
    p.Char? && IsDigit(p.c) && (p.rest.Nil? || IsNumber(p.rest))
  }

  /** No brace holds just a number, which would compile to a count. */
  predicate NoCount(p: Pattern) {
    match p
    case Nil => true
    case Char(_, rest) => NoCount(rest)
    case Group(alts, rest) => !(alts.Last? && IsNumber(alts.p)) && NoCountAlts(alts) && NoCount(rest)
  }

  predicate NoCountAlts(alts: Alts) {
    match alts
    case Last(p) => NoCount(p)
    case More(p, others) => NoCount(p) && NoCountAlts(others)
  }

  /** The structure of a pattern's expression followed by `k`. */
  function ReThen(p: Pattern, k: Re): (re: Re)
    decreases p, 0
  {
    match p
    case Nil => k
    case Char(c, rest) => Cat(Lit(c), ReThen(rest, k))
    case Group(alts, rest) =>
      match alts
      case Last(q) => Cat(Lit('{'), ReThen(q, Cat(Lit('}'), ReThen(rest, k))))
      case More(_, _) => Cat(ReOfAlts(alts), ReThen(rest, k))
  }

  function ReOf(p: Pattern): (re: Re)
    decreases p, 1
  {
    ReThen(p, Empty)
  }

  function ReOfAlts(alts: Alts): (re: Re)
    decreases alts, 0
  {
    match alts
    case Last(p) => ReOf(p)
    case More(p, others) => Or(ReOf(p), ReOfAlts(others))
  }

  predicate NoQuantifier(s: string) {
    Counted(s).None? && (s == "" || !IsQuantifier(s[0]))
  }

  lemma {:induction false} SeqOfLiteral(c: char, tail: string, b: Re, end: string)
    requires !IsMeta(c) && c != '(' && c != ')' && c != '{' && NoQuantifier(tail) && ParseSeq(tail) == Some((b, end))
    ensures ParseSeq([c] + tail) == Some((Cat(Lit(c), b), end)) && NoQuantifier([c] + tail)
  {
    assert ([c] + tail)[1..] == tail;
    assert ParseAtom([c] + tail) == Some((Lit(c), tail));
  }

  lemma {:induction false} SeqOfBrace(tail: string, b: Re, end: string)
    requires Counted("{" + tail).None? && NoQuantifier(tail) && ParseSeq(tail) == Some((b, end))
    ensures ParseSeq("{" + tail) == Some((Cat(Lit('{'), b), end)) && NoQuantifier("{" + tail)
  {
    assert ("{" + tail)[1..] == tail;
    assert ParseAtom("{" + tail) == Some((Lit('{'), tail));
  }

  lemma {:induction false} SeqOfGroup(inner: string, a: Re, tail: string, b: Re, end: string)
    requires ParseOr(inner) == Some((a, ")" + tail)) && NoQuantifier(tail) && ParseSeq(tail) == Some((b, end))
    ensures ParseSeq(['('] + inner) == Some((Cat(a, b), end)) && NoQuantifier(['('] + inner)
  {
    assert (['('] + inner)[1..] == inner;
    assert (")" + tail)[1..] == tail;
    assert ParseAtom(['('] + inner) == Some((a, tail));
  }

  /** The digits a pattern's text begins with are followed by neither a comma nor the end of
      the brace, unless the pattern is a number or nothing. */
  lemma {:induction false} DigitsStop(p: Pattern, tail: string)
    requires WellFormed(p, false) && p != Nil && !IsNumber(p)
    ensures var rest := SkipDigits(RegexText(p) + tail);
            rest != "" && rest[0] != '}' && rest[0] != ','
  {
    match p
    case Char(c, rest) =>
      assert RegexText(p) + tail == [c] + (RegexText(rest) + tail);
      if IsDigit(c) {
        DigitsStop(rest, tail);
        assert ([c] + (RegexText(rest) + tail))[1..] == RegexText(rest) + tail;
      }
    case Group(alts, rest) =>
      assert (RegexText(p) + tail)[0] == if alts.More? then '(' else '{';
  }

  lemma {:induction false} BraceIsNoCount(p: Pattern, tail: string)
    requires WellFormed(p, false) && !IsNumber(p)
    ensures Counted("{" + (RegexText(p) + ("}" + tail))).None?
  {
    hide RegexText, WellFormed;
    var s := "{" + (RegexText(p) + ("}" + tail));
    assert s[1..] == RegexText(p) + ("}" + tail);
    if p == Nil {
      NilText();
      assert s[1] == '}';
    } else {
      DigitsStop(p, "}" + tail);
    }
  }

  lemma NilText()
    ensures RegexText(Nil) == ""
  {
  }

  lemma {:induction false} CharText(c: char, rest: Pattern, tail: string)
    ensures RegexText(Char(c, rest)) + tail == [c] + (RegexText(rest) + tail)
  {
    hide AltsRegexText;
  }

  lemma {:induction false} PlainGroupText(q: Pattern, rest: Pattern, tail: string)
    ensures RegexText(Group(Last(q), rest)) + tail == "{" + (RegexText(q) + ("}" + (RegexText(rest) + tail)))
  {
    assert AltsRegexText(Last(q)) == RegexText(q);
  }

  lemma {:induction false} CommaGroupText(alts: Alts, rest: Pattern, tail: string)
    requires alts.More?
    ensures RegexText(Group(alts, rest)) + tail == ['('] + (AltsRegexText(alts) + (")" + (RegexText(rest) + tail)))
  {
    hide AltsRegexText;
  }

  /** Parsing the regular expression's text recovers its structure. */
  lemma {:induction false} ParsesThen(p: Pattern, top: bool, tail: string, k: Re, end: string)
    requires WellFormed(p, top) && NoMeta(p) && NoCount(p) && ParseSeq(tail) == Some((k, end)) && NoQuantifier(tail)
    ensures ParseSeq(RegexText(p) + tail) == Some((ReThen(p, k), end)) && NoQuantifier(RegexText(p) + tail)
    decreases p, 1
  {
    hide ParseSeq, ParseOr, NoQuantifier, Counted, IsNumber, RegexText;
    match p
    case Nil =>
      NilText();
      assert "" + tail == tail;
    case Char(c, rest) =>
      ParsesThen(rest, top, tail, k, end);
      SeqOfLiteral(c, RegexText(rest) + tail, ReThen(rest, k), end);
      CharText(c, rest, tail);
    case Group(alts, rest) =>
      ParsesThen(rest, top, tail, k, end);
      match alts
      case Last(q) =>
        PlainParses(q, RegexText(rest) + tail, ReThen(rest, k), end);
        PlainGroupText(q, rest, tail);
      case More(_, _) =>
        CommaParses(alts, RegexText(rest) + tail, ReThen(rest, k), end);
        CommaGroupText(alts, rest, tail);
  }

  lemma {:induction false} PlainParses(q: Pattern, more: string, k: Re, end: string)
    requires WellFormed(q, false) && NoMeta(q) && NoCount(q) && !IsNumber(q)
    requires ParseSeq(more) == Some((k, end)) && NoQuantifier(more)
    ensures var s := "{" + (RegexText(q) + ("}" + more));
            ParseSeq(s) == Some((Cat(Lit('{'), ReThen(q, Cat(Lit('}'), k))), end)) && NoQuantifier(s)
    decreases q, 2
  {
    hide ParseSeq, NoQuantifier, Counted, IsNumber, RegexText, ReThen, WellFormed, NoMeta, NoCount;
    SeqOfLiteral('}', more, k, end);
    assert ['}'] + more == "}" + more;
    ParsesThen(q, false, "}" + more, Cat(Lit('}'), k), end);
    BraceIsNoCount(q, more);
    SeqOfBrace(RegexText(q) + ("}" + more), ReThen(q, Cat(Lit('}'), k)), end);
  }

  lemma {:induction false} CommaParses(alts: Alts, more: string, k: Re, end: string)
    requires WellFormedAlts(alts) && NoMetaAlts(alts) && NoCountAlts(alts)
    requires ParseSeq(more) == Some((k, end)) && NoQuantifier(more)
    ensures var s := ['('] + (AltsRegexText(alts) + (")" + more));
            ParseSeq(s) == Some((Cat(ReOfAlts(alts), k), end)) && NoQuantifier(s)
    decreases alts, 1
  {
    hide ParseSeq, ParseOr, NoQuantifier, AltsRegexText, ReOfAlts, WellFormedAlts, NoMetaAlts, NoCountAlts;
    assert Stops(")" + more);
    ParsesOr(alts, ")" + more);
    SeqOfGroup(AltsRegexText(alts) + (")" + more), ReOfAlts(alts), more, k, end);
  }

  lemma {:induction false} SeqOfNothing(rest: string)
    requires Stops(rest)
    ensures ParseSeq(rest) == Some((Empty, rest)) && NoQuantifier(rest)
  {
  }

  lemma {:induction false} ParsesSeq(p: Pattern, top: bool, rest: string)
    requires WellFormed(p, top) && NoMeta(p) && NoCount(p) && Stops(rest)
    ensures ParseSeq(RegexText(p) + rest) == Some((ReOf(p), rest))
    decreases p, 2
  {
    hide ParseSeq, NoQuantifier, RegexText, WellFormed, NoMeta, NoCount;
    SeqOfNothing(rest);
    ParsesThen(p, top, rest, Empty, rest);
  }

  lemma {:induction false} ParsesOr(alts: Alts, rest: string)
    requires WellFormedAlts(alts) && NoMetaAlts(alts) && NoCountAlts(alts)
    requires Stops(rest) && (rest != "" ==> rest[0] == ')')
    ensures ParseOr(AltsRegexText(alts) + rest) == Some((ReOfAlts(alts), rest))
    decreases alts, 0
  {
    hide ParseSeq, ReOf, RegexText, WellFormed, NoMeta, NoCount;
    match alts
    case Last(p) =>
      ParsesSeq(p, false, rest);
    case More(p, others) =>
      var tail := AltsRegexText(others) + rest;
      ParsesOr(others, rest);
      ParsesSeq(p, false, "|" + tail);
      assert AltsRegexText(alts) + rest == RegexText(p) + ("|" + tail);
      assert ("|" + tail)[1..] == tail;
  }

  // --- what the expression matches ---

  lemma {:induction false} PrefixedMember(s: string, b: seq<string>, w: string)
    ensures w in Prefixed(s, b) <==> s <= w && w[|s|..] in b
  {
    if w in Prefixed(s, b) {
      var i :| 0 <= i < |b| && w == Prefixed(s, b)[i];
      assert w == s + b[i] && w[|s|..] == b[i];
    }
    if s <= w && w[|s|..] in b {
      var i :| 0 <= i < |b| && w[|s|..] == b[i];
      assert Prefixed(s, b)[i] == w;
    }
  }

  /** A string of the product splits into a string of each factor. */
  lemma {:induction false} CrossMember(a: seq<string>, b: seq<string>, w: string)
    ensures w in Cross(a, b) <==> exists k :: 0 <= k <= |w| && w[..k] in a && w[k..] in b
    decreases |a|
  {
    if |a| > 0 {
      var s, rest := a[0], a[1..];
      assert a == [s] + rest;
      PrefixedMember(s, b, w);
      CrossMember(rest, b, w);
      if s <= w && w[|s|..] in b {
        assert w[..|s|] == s;
      }
      if k :| 0 <= k <= |w| && w[..k] in a && w[k..] in b {
        if w[..k] == s {
          assert |s| == k;
        } else {
          assert w[..k] in rest;
        }
      }
    }
  }

  lemma {:induction false} BracedMember(ss: seq<string>, w: string)
    ensures w in Braced(ss) <==> |w| >= 2 && w[0] == '{' && w[|w| - 1] == '}' && w[1..|w| - 1] in ss
  {
    if w in Braced(ss) {
      var i :| 0 <= i < |ss| && w == Braced(ss)[i];
      assert w == "{" + ss[i] + "}" && w[1..|w| - 1] == ss[i];
    }
    if |w| >= 2 && w[0] == '{' && w[|w| - 1] == '}' && w[1..|w| - 1] in ss {
      var i :| 0 <= i < |ss| && w[1..|w| - 1] == ss[i];
      assert w == "{" + ss[i] + "}";
      assert Braced(ss)[i] == w;
    }
  }

  /** The part of `w` from `i` to `m` is one of the pattern's strings. */
  predicate Stands(p: Pattern, w: string, i: nat, m: nat)
    requires i <= m <= |w|
  {
    w[i..m] in Denote(p)
  }

  predicate GroupStands(alts: Alts, w: string, i: nat, m: nat)
    requires i <= m <= |w|
  {
    w[i..m] in DenoteGroup(alts)
  }

  lemma {:induction false} NilStands(w: string, i: nat, m: nat)
    requires i <= m <= |w|
    ensures Stands(Nil, w, i, m) <==> i == m
  {
    assert w[i..m] == "" <==> i == m;
  }

  lemma {:induction false} CharStands(c: char, rest: Pattern, w: string, i: nat, m: nat)
    requires i <= m <= |w|
    ensures Stands(Char(c, rest), w, i, m) <==> i < m && w[i] == c && Stands(rest, w, i + 1, m)
  {
    hide Prefixed;
    PrefixedMember([c], Denote(rest), w[i..m]);
    if i < m {
      assert w[i..m][1..] == w[i + 1..m] && w[i..m][0] == w[i];
    }
  }

  /** Splits of a part of a string are splits of the string, shifted. */
  lemma {:induction false} SplitShift(a: seq<string>, b: seq<string>, w: string, i: nat, m: nat)
    requires i <= m <= |w|
    ensures w[i..m] in Cross(a, b) <==> exists k :: i <= k <= m && w[i..k] in a && w[k..m] in b
  {
    hide Cross;
    var part := w[i..m];
    CrossMember(a, b, part);
    if k :| 0 <= k <= |part| && part[..k] in a && part[k..] in b {
      assert part[..k] == w[i..i + k] && part[k..] == w[i + k..m];
    }
    if k :| i <= k <= m && w[i..k] in a && w[k..m] in b {
      assert part[..k - i] == w[i..k] && part[k - i..] == w[k..m];
    }
  }

  lemma {:induction false} GroupSplits(alts: Alts, rest: Pattern, w: string, i: nat, m: nat)
    requires i <= m <= |w|
    ensures Stands(Group(alts, rest), w, i, m)
            <==> exists b :: i <= b <= m && GroupStands(alts, w, i, b) && Stands(rest, w, b, m)
  {
    hide Cross, DenoteGroup;
    assert Denote(Group(alts, rest)) == Cross(DenoteGroup(alts), Denote(rest));
    hide Denote;
    SplitShift(DenoteGroup(alts), Denote(rest), w, i, m);
    if b :| i <= b <= m && GroupStands(alts, w, i, b) && Stands(rest, w, b, m) {
      assert w[i..b] in DenoteGroup(alts) && w[b..m] in Denote(rest);
    }
    if k :| i <= k <= m && w[i..k] in DenoteGroup(alts) && w[k..m] in Denote(rest) {
      assert GroupStands(alts, w, i, k) && Stands(rest, w, k, m);
    }
  }

  lemma InnerPart(w: string, i: nat, m: nat)
    requires i + 2 <= m <= |w|
    ensures w[i..m][1..|w[i..m]| - 1] == w[i + 1..m - 1]
  {
    var part := w[i..m];
    var inner, other := part[1..m - i - 1], w[i + 1..m - 1];
    forall x | 0 <= x < m - i - 2 ensures inner[x] == other[x] {
      assert part[1 + x] == w[i + 1 + x];
    }
    assert inner == other;
  }

  lemma {:induction false} PlainGroupStands(q: Pattern, w: string, i: nat, m: nat)
    requires i <= m <= |w|
    ensures GroupStands(Last(q), w, i, m)
            <==> i + 2 <= m && w[i] == '{' && w[m - 1] == '}' && Stands(q, w, i + 1, m - 1)
  {
    hide Denote;
    assert DenoteAlts(Last(q)) == Denote(q);
    BracedMember(Denote(q), w[i..m]);
    if i + 2 <= m {
      InnerPart(w, i, m);
    }
  }

  lemma {:induction false} LitFirst(c: char, k: Re, w: string, i: nat, j: nat)
    requires i <= j <= |w|
    ensures Matches(Cat(Lit(c), k), w, i, j) <==> i < j && w[i] == c && Matches(k, w, i + 1, j)
  {
    if i < j && w[i] == c && Matches(k, w, i + 1, j) {
      assert Matches(Lit(c), w, i, i + 1);
    }
  }

  /** `p` takes a first part and `k` matches what is left. */
  ghost predicate Divides(p: Pattern, k: Re, w: string, i: nat, j: nat)
    requires i <= j <= |w|
  {
    exists m :: i <= m <= j && Stands(p, w, i, m) && Matches(k, w, m, j)
  }

  /** The expression of a pattern, followed by another, matches what the pattern stands for,
      followed by what the other matches. */
  lemma {:induction false} MatchesThen(p: Pattern, k: Re, w: string, i: nat, j: nat)
    requires i <= j <= |w|
    ensures Matches(ReThen(p, k), w, i, j) <==> Divides(p, k, w, i, j)
    decreases p, 1
  {
    hide Matches, Stands, GroupStands;
    match p
    case Nil =>
      forall m | i <= m <= j ensures Stands(p, w, i, m) <==> i == m {
        NilStands(w, i, m);
      }
    case Char(c, rest) =>
      LitFirst(c, ReThen(rest, k), w, i, j);
      if i < j {
        MatchesThen(rest, k, w, i + 1, j);
      }
      forall m | i <= m <= j
        ensures Stands(p, w, i, m) <==> i < m && w[i] == c && Stands(rest, w, i + 1, m)
      {
        CharStands(c, rest, w, i, m);
      }
    case Group(alts, rest) =>
      match alts
      case Last(q) => PlainThen(q, rest, k, w, i, j);
      case More(_, _) => CommaThen(alts, rest, k, w, i, j);
  }

  /** A brace and the rest of the pattern take one part after the other. */
  lemma {:induction false} GroupDivides(alts: Alts, rest: Pattern, k: Re, w: string, i: nat, j: nat)
    requires i <= j <= |w|
    ensures Divides(Group(alts, rest), k, w, i, j)
            <==> exists b :: i <= b <= j && GroupStands(alts, w, i, b) && Divides(rest, k, w, b, j)
  {
    hide Matches, Stands, GroupStands;
    var p := Group(alts, rest);
    if m :| i <= m <= j && Stands(p, w, i, m) && Matches(k, w, m, j) {
      GroupSplits(alts, rest, w, i, m);
      var b :| i <= b <= m && GroupStands(alts, w, i, b) && Stands(rest, w, b, m);
      assert Divides(rest, k, w, b, j);
    }
    if b :| i <= b <= j && GroupStands(alts, w, i, b) && Divides(rest, k, w, b, j) {
      var m :| b <= m <= j && Stands(rest, w, b, m) && Matches(k, w, m, j);
      GroupSplits(alts, rest, w, i, m);
    }
  }

  lemma {:induction false} CommaThen(alts: Alts, rest: Pattern, k: Re, w: string, i: nat, j: nat)
    requires i <= j <= |w| && alts.More?
    ensures Matches(ReThen(Group(alts, rest), k), w, i, j) <==> Divides(Group(alts, rest), k, w, i, j)
    decreases Group(alts, rest), 0
  {
    hide Divides, GroupStands, Stands;
    GroupDivides(alts, rest, k, w, i, j);
    forall b | i <= b <= j
      ensures Matches(ReOfAlts(alts), w, i, b) <==> GroupStands(alts, w, i, b)
      ensures Matches(ReThen(rest, k), w, b, j) <==> Divides(rest, k, w, b, j)
    {
      MatchesGroup(alts, w, i, b);
      MatchesThen(rest, k, w, b, j);
    }
    CatSplits(Cat(ReOfAlts(alts), ReThen(rest, k)), w, i, j);
  }

  lemma {:induction false} CatParts(re: Re, w: string, i: nat, j: nat) returns (k: nat)
    requires i <= j <= |w| && re.Cat? && Matches(re, w, i, j)
    ensures i <= k <= j && Matches(re.a, w, i, k) && Matches(re.b, w, k, j)
  {
    match re
    case Cat(a, b) =>
      k :| i <= k <= j && Matches(a, w, i, k) && Matches(b, w, k, j);
  }

  lemma {:induction false} CatJoins(re: Re, w: string, i: nat, k: nat, j: nat)
    requires i <= k <= j <= |w| && re.Cat? && Matches(re.a, w, i, k) && Matches(re.b, w, k, j)
    ensures Matches(re, w, i, j)
  {
    match re
    case Cat(a, b) => assert Matches(a, w, i, k) && Matches(b, w, k, j);
  }

  lemma {:induction false} CatSplits(re: Re, w: string, i: nat, j: nat)
    requires i <= j <= |w| && re.Cat?
    ensures Matches(re, w, i, j) <==> exists k :: i <= k <= j && Matches(re.a, w, i, k) && Matches(re.b, w, k, j)
  {
    hide Matches;
    if Matches(re, w, i, j) {
      var k := CatParts(re, w, i, j);
      assert Matches(re.a, w, i, k) && Matches(re.b, w, k, j);
    }
    if k :| i <= k <= j && Matches(re.a, w, i, k) && Matches(re.b, w, k, j) {
      CatJoins(re, w, i, k, j);
    }
  }

  lemma {:induction false} MatchesGroup(alts: Alts, w: string, i: nat, j: nat)
    requires i <= j <= |w| && alts.More?
    ensures Matches(ReOfAlts(alts), w, i, j) <==> GroupStands(alts, w, i, j)
    decreases alts, 1
  {
    hide Matches, ReOfAlts, DenoteAlts;
    MatchesDenotesAlts(alts, w, i, j);
  }

  lemma {:induction false} PlainThen(q: Pattern, rest: Pattern, k: Re, w: string, i: nat, j: nat)
    requires i <= j <= |w|
    ensures Matches(ReThen(Group(Last(q), rest), k), w, i, j) <==> Divides(Group(Last(q), rest), k, w, i, j)
    decreases Group(Last(q), rest), 0
  {
    hide Matches, GroupStands, Stands;
    var last := Cat(Lit('}'), ReThen(rest, k));
    LitFirst('{', ReThen(q, last), w, i, j);
    GroupDivides(Last(q), rest, k, w, i, j);
    if i < j {
      MatchesThen(q, last, w, i + 1, j);
    }
    forall n | i < n <= j
      ensures Matches(last, w, n, j) <==> n < j && w[n] == '}' && Divides(rest, k, w, n + 1, j)
    {
      LitFirst('}', ReThen(rest, k), w, n, j);
      if n < j {
        MatchesThen(rest, k, w, n + 1, j);
      }
    }
    forall b | i <= b <= j
      ensures GroupStands(Last(q), w, i, b)
              <==> i + 2 <= b && w[i] == '{' && w[b - 1] == '}' && Stands(q, w, i + 1, b - 1)
    {
      PlainGroupStands(q, w, i, b);
    }
    if i < j && w[i] == '{' && Divides(q, last, w, i + 1, j) {
      var n :| i + 1 <= n <= j && Stands(q, w, i + 1, n) && Matches(last, w, n, j);
      assert GroupStands(Last(q), w, i, n + 1) && Divides(rest, k, w, n + 1, j);
    }
    if b :| i <= b <= j && GroupStands(Last(q), w, i, b) && Divides(rest, k, w, b, j) {
      assert Stands(q, w, i + 1, b - 1) && Matches(last, w, b - 1, j);
    }
  }

  /** The expression of a pattern matches exactly the strings the pattern stands for. */
  lemma {:induction false} MatchesDenotes(p: Pattern, w: string, i: nat, j: nat)
    requires i <= j <= |w|
    ensures Matches(ReOf(p), w, i, j) <==> w[i..j] in Denote(p)
    decreases p, 2
  {
    hide ReThen, Denote;
    MatchesThen(p, Empty, w, i, j);
    forall m | i <= m <= j ensures Matches(Empty, w, m, j) <==> m == j {
    }
    if Stands(p, w, i, j) {
      assert Divides(p, Empty, w, i, j);
    }
  }

  lemma {:induction false} MatchesDenotesAlts(alts: Alts, w: string, i: nat, j: nat)
    requires i <= j <= |w|
    ensures Matches(ReOfAlts(alts), w, i, j) <==> w[i..j] in DenoteAlts(alts)
    decreases alts, 0
  {
    match alts
    case Last(p) => MatchesDenotes(p, w, i, j);
    case More(p, others) =>
      MatchesDenotes(p, w, i, j);
      MatchesDenotesAlts(others, w, i, j);
  }

  // --- patterns with metacharacters ---

  /** Every literal of the expression is an ordinary character. */
  predicate Clean(re: Re) {
    match re
    case Lit(c) => !IsMeta(c)
    case Cat(a, b) => Clean(a) && Clean(b)
    case Or(a, b) => Clean(a) && Clean(b)
    case Star(a) => Clean(a)
    case OneOrMore(a) => Clean(a)
    case Maybe(a) => Clean(a)
    case Times(a, _, _) => Clean(a)
    case _ => true
  }

  lemma {:induction false} ParseOrClean(s: string)
    ensures ParseOr(s).Some? ==> Clean(ParseOr(s).value.0)
    decreases |s|, 3
  {
    ParseSeqClean(s);
    if ParseSeq(s).Some? && ParseSeq(s).value.1 != "" {
      ParseOrClean(ParseSeq(s).value.1[1..]);
    }
  }

  lemma {:induction false} ParseSeqClean(s: string)
    ensures ParseSeq(s).Some? ==> Clean(ParseSeq(s).value.0)
    decreases |s|, 2
  {
    if !Stops(s) {
      ParseTermClean(s);
      if ParseTerm(s).Some? {
        ParseSeqClean(ParseTerm(s).value.1);
      }
    }
  }

  lemma {:induction false} ParseTermClean(s: string)
    ensures ParseTerm(s).Some? ==> Clean(ParseTerm(s).value.0)
    decreases |s|, 1
  {
    if s != "" && s[0] == '(' {
      ParseOrClean(s[1..]);
    }
  }

  predicate AllOrdinary(w: string, i: nat, j: nat)
    requires i <= j <= |w|
  {
    forall k :: i <= k < j ==> !IsMeta(w[k])
  }

  lemma {:induction false} CleanMatches(re: Re, w: string, i: nat, j: nat)
    requires Clean(re) && i <= j <= |w| && Matches(re, w, i, j)
    ensures AllOrdinary(w, i, j)
    decreases re, 0, j - i
  {
    match re
    case Empty =>
    case Lit(_) =>
    case Cat(a, b) =>
      var k :| i <= k <= j && Matches(a, w, i, k) && Matches(b, w, k, j);
      CleanMatches(a, w, i, k);
      CleanMatches(b, w, k, j);
    case Or(a, b) =>
      if Matches(a, w, i, j) {
        CleanMatches(a, w, i, j);
      } else {
        CleanMatches(b, w, i, j);
      }
    case Star(a) => CleanRepeats(a, w, i, j);
    case OneOrMore(a) =>
      var k :| i <= k <= j && Matches(a, w, i, k) && Repeats(a, w, k, j);
      CleanMatches(a, w, i, k);
      CleanRepeats(a, w, k, j);
    case Maybe(a) =>
      if i != j {
        CleanMatches(a, w, i, j);
      }
    case Times(a, min, max) => CleanIterates(a, min, max, w, i, j);
    case Start =>
  }

  lemma {:induction false} CleanIterates(a: Re, min: nat, max: Option<nat>, w: string, i: nat, j: nat)
    requires Clean(a) && i <= j <= |w| && Iterates(a, min, max, w, i, j)
    ensures AllOrdinary(w, i, j)
    decreases a, 1, min, j - i
  {
    if min > 0 {
      var k :| i <= k <= j && Matches(a, w, i, k) && Iterates(a, min - 1, OneLess(max), w, k, j);
      CleanMatches(a, w, i, k);
      CleanIterates(a, min - 1, OneLess(max), w, k, j);
    } else if i != j {
      var k :| i < k <= j && Matches(a, w, i, k) && Iterates(a, 0, OneLess(max), w, k, j);
      CleanMatches(a, w, i, k);
      CleanIterates(a, 0, OneLess(max), w, k, j);
    }
  }

  lemma {:induction false} CleanRepeats(a: Re, w: string, i: nat, j: nat)
    requires Clean(a) && i <= j <= |w| && Repeats(a, w, i, j)
    ensures AllOrdinary(w, i, j)
    decreases a, 1, j - i
  {
    if i != j {
      var k :| i < k <= j && Matches(a, w, i, k) && Repeats(a, w, k, j);
      CleanMatches(a, w, i, k);
      CleanRepeats(a, w, k, j);
    }
  }

  predicate HasMetaChar(w: string) {
    exists k :: 0 <= k < |w| && IsMeta(w[k])
  }

  lemma MetaConcat(u: string, v: string)
    ensures HasMetaChar(u + v) <==> HasMetaChar(u) || HasMetaChar(v)
  {
    if k :| 0 <= k < |u| && IsMeta(u[k]) {
      assert (u + v)[k] == u[k];
    }
    if k :| 0 <= k < |v| && IsMeta(v[k]) {
      assert (u + v)[|u| + k] == v[k];
    }
  }

  lemma {:induction false} CrossHas(a: seq<string>, b: seq<string>, u: string, v: string)
    requires u in a && v in b
    ensures u + v in Cross(a, b)
  {
    CrossMember(a, b, u + v);
    assert (u + v)[..|u|] == u && (u + v)[|u|..] == v;
  }

  /** A metacharacter in the pattern appears in one of its strings. */
  lemma {:induction false} MetaWitness(p: Pattern) returns (w: string)
    requires !NoMeta(p)
    ensures w in Denote(p) && HasMetaChar(w)
    decreases p, 0
  {
    hide Cross, Prefixed;
    match p
    case Nil => w := "";
    case Char(c, rest) =>
      if IsMeta(c) {
        w := SomeString(rest);
      } else {
        w := MetaWitness(rest);
      }
      PrefixedMember([c], Denote(rest), [c] + w);
      assert ([c] + w)[1..] == w && ([c] + w)[0] == c;
      MetaConcat([c], w);
      w := [c] + w;
    case Group(alts, rest) =>
      var u, v;
      if !NoMetaAlts(alts) {
        u := MetaWitnessAlts(alts);
        u := InGroup(alts, u);
        v := SomeString(rest);
      } else {
        u := SomeStringOf(alts);
        v := MetaWitness(rest);
      }
      CrossHas(DenoteGroup(alts), Denote(rest), u, v);
      MetaConcat(u, v);
      w := u + v;
  }

  lemma SomeString(p: Pattern) returns (w: string)
    ensures w in Denote(p)
  {
    DenoteSize(p);
    w := Denote(p)[0];
  }

  lemma SomeStringOf(alts: Alts) returns (w: string)
    ensures w in DenoteGroup(alts)
  {
    DenoteGroupSize(alts);
    w := DenoteGroup(alts)[0];
  }

  /** An alternative as the brace has it, between braces if it is the only one. */
  lemma {:induction false} InGroup(alts: Alts, u: string) returns (w: string)
    requires u in DenoteAlts(alts)
    ensures w in DenoteGroup(alts) && (HasMetaChar(u) ==> HasMetaChar(w))
  {
    w := u;
    if alts.Last? {
      w := "{" + u + "}";
      assert w[1..|w| - 1] == u;
      BracedMember(DenoteAlts(alts), w);
      MetaConcat("{" + u, "}");
      MetaConcat("{", u);
    }
  }

  lemma {:induction false} MetaWitnessAlts(alts: Alts) returns (w: string)
    requires !NoMetaAlts(alts)
    ensures w in DenoteAlts(alts) && HasMetaChar(w)
    decreases alts, 0
  {
    match alts
    case Last(p) => w := MetaWitness(p);
    case More(p, others) =>
      if !NoMeta(p) {
        w := MetaWitness(p);
      } else {
        w := MetaWitnessAlts(others);
      }
  }

  // --- the two back ends agree ---

  lemma {:induction false} AgreesWithoutMeta(p: Pattern)
    requires WellFormed(p, true) && NoMeta(p) && NoCount(p)
    ensures RegexDenotes(RegexText(p), Denote(p))
  {
    hide Matches, ParseSeq, Denote;
    ParsesSeq(p, true, "");
    assert RegexText(p) + "" == RegexText(p);
    forall w: string ensures Matches(ReOf(p), w, 0, |w|) <==> w in Denote(p) {
      MatchesDenotes(p, w, 0, |w|);
      assert w[0..|w|] == w;
    }
  }

  /** No expression in the compiler's fragment matches a string with a metacharacter. */
  lemma {:induction false} DisagreesWithMeta(p: Pattern, regex: string)
    requires !NoMeta(p)
    ensures !RegexDenotes(regex, Denote(p))
  {
    hide Matches, ParseOr, Denote;
    ParseOrClean(regex);
    var w := MetaWitness(p);
    if ParseRegex(regex).Some? {
      var re := ParseRegex(regex).value;
      if Matches(re, w, 0, |w|) {
        CleanMatches(re, w, 0, |w|);
      }
    }
  }

  /** The expression of the empty pattern matches the empty string, but its expansion
      lists nothing. */
  lemma EmptyPatternDisagrees()
    ensures !RegexDenotes(RegexText(Nil), [])
  {
    assert ParseSeq("") == Some((Empty, ""));
    assert ParseRegex("") == Some(Empty);
    assert Matches(Empty, "", 0, |""|);
  }

  lemma {:induction false} CompactedNumber(p: Pattern)
    ensures IsNumber(Compacted(p)) <==> IsNumber(p)
  {
    if p.Char? {
      CompactedNumber(p.rest);
    }
  }

  lemma {:induction false} CompactedKeeps(p: Pattern, top: bool)
    requires WellFormed(p, top)
    ensures WellFormed(Compacted(p), top) && (NoMeta(Compacted(p)) <==> NoMeta(p))
    ensures NoCount(p) ==> NoCount(Compacted(p))
    decreases p, 0
  {
    match p
    case Nil =>
    case Char(_, rest) => CompactedKeeps(rest, top);
    case Group(alts, rest) =>
      CompactedAltsKeep(alts, true);
      CompactedKeeps(rest, top);
      if alts.Last? {
        CompactedNumber(alts.p);
        assert CompactedAlts(alts, true) == Last(Compacted(alts.p));
      }
  }

  lemma {:induction false} CompactedAltsKeep(alts: Alts, first: bool)
    requires WellFormedAlts(alts)
    ensures WellFormedAlts(CompactedAlts(alts, first)) && (NoMetaAlts(CompactedAlts(alts, first)) <==> NoMetaAlts(alts))
    ensures NoCountAlts(alts) ==> NoCountAlts(CompactedAlts(alts, first))
    decreases alts, 0
  {
    hide NoMeta, NoCount, WellFormed, Compacted;
    match alts
    case Last(p) => CompactedKeeps(p, false);
    case More(p, others) =>
      CompactedKeeps(p, false);
      CompactedAltsKeep(others, false);
      if p == Nil {
        NilKeeps();
      }
  }

  lemma NilKeeps()
    ensures NoMeta(Nil) && NoCount(Nil) && Compacted(Nil) == Nil
  {
  }

  ghost predicate SameStrings(a: seq<string>, b: seq<string>) {
    forall w: string :: w in a <==> w in b
  }

  lemma DenotesSame(regex: string, a: seq<string>, b: seq<string>)
    requires RegexDenotes(regex, a)
    ensures RegexDenotes(regex, b) <==> SameStrings(a, b)
  {
    hide Matches, ParseRegex;
    var re := ParseRegex(regex).value;
    if RegexDenotes(regex, b) {
      forall w: string ensures w in a <==> w in b {
        assert Matches(re, w, 0, |w|) <==> w in a;
      }
    }
  }

  /** What the compiled expression matches, for plain text and balanced braces none of which
      holds just a number: the strings of the compacted pattern. Both back ends agree on such a
      pattern exactly when it is not empty, has none of | * + ? ^, and loses no string by
      compacting. */
  lemma {:induction false} BackEndsCompare(p: Pattern)
    requires WellFormed(p, true) && NoCount(p)
    ensures NoMeta(p) ==> RegexDenotes(CompileNode(TreeOf(p), false), Denote(Compacted(p)))
    ensures RegexDenotes(CompileNode(TreeOf(p), false), Expansion(TreeOf(p)))
            <==> p != Nil && NoMeta(p) && SameStrings(Denote(Compacted(p)), Denote(p))
  {
    hide RegexDenotes, CompileNode, Expansion, Denote, RegexText, Compacted, SameStrings;
    TreeCompiles(p);
    ExpansionDenotes(p);
    CompactedKeeps(p, true);
    var c := Compacted(p);
    if NoMeta(p) {
      AgreesWithoutMeta(c);
      if p != Nil {
        DenotesSame(RegexText(c), Denote(c), Denote(p));
      }
    } else {
      DisagreesWithMeta(p, RegexText(c));
    }
    if p == Nil {
      EmptyPatternDisagrees();
    }
  }

  /** With no two commas adjacent compacting changes nothing: the compiled expression matches
      exactly the strings the expansion lists if and only if the pattern is not empty and
      contains none of | * + ? ^. */
  lemma {:induction false} BackEndsAgree(p: Pattern)
    requires WellFormed(p, true) && NoCount(p) && Spaced(p)
    ensures RegexDenotes(CompileNode(TreeOf(p), false), Expansion(TreeOf(p))) <==> p != Nil && NoMeta(p)
  {
    hide RegexDenotes, CompileNode, Expansion, Denote, NoMeta;
    BackEndsCompare(p);
    SpacedIsCompact(p);
  }

  // --- a brace that holds a number ---

  /** `a{2}` */
  function Twice(): (p: Pattern) {
    Char('a', Group(Last(Char('2', Nil)), Nil))
  }

  lemma TwiceText()
    ensures RegexText(Compacted(Twice())) == "a{2}"
  {
    var group := Group(Last(Char('2', Nil)), Nil);
    NilText();
    CharText('2', Nil, "");
    assert RegexText(Char('2', Nil)) == "2";
    PlainGroupText(Char('2', Nil), Nil, "");
    assert RegexText(group) == "{2}";
    CharText('a', group, "");
    assert CompactedAlts(Last(Char('2', Nil)), true) == Last(Char('2', Nil));
    assert Compacted(Twice()) == Twice();
  }

  lemma TwiceParses()
    ensures ParseRegex("a{2}") == Some(Cat(Times(Lit('a'), 2, Some(2)), Empty))
  {
    var rest := "{2}";
    assert "a{2}"[1..] == rest && rest[1..] == "2}" && "2}"[1..] == "}" && "}"[1..] == "";
    assert SkipDigits("2}") == "}" && LeadingNumber("2}", 0) == 2;
    assert Counted(rest) == Some((2, Some(2), ""));
    assert ParseAtom("a{2}") == Some((Lit('a'), rest));
    assert ParseTerm("a{2}") == Some((Times(Lit('a'), 2, Some(2)), ""));
    assert ParseSeq("") == Some((Empty, ""));
    assert ParseSeq("a{2}") == Some((Cat(Times(Lit('a'), 2, Some(2)), Empty), ""));
  }

  lemma TwiceMatches()
    ensures Matches(Cat(Times(Lit('a'), 2, Some(2)), Empty), "aa", 0, 2)
  {
    var a := Lit('a');
    assert Matches(a, "aa", 0, 1) && Matches(a, "aa", 1, 2);
    assert Iterates(a, 0, Some(0), "aa", 2, 2);
    assert Iterates(a, 1, Some(1), "aa", 1, 2);
    assert Iterates(a, 2, Some(2), "aa", 0, 2);
    assert Matches(Times(a, 2, Some(2)), "aa", 0, 2) && Matches(Empty, "aa", 2, 2);
  }

  /** A brace that holds just a number compiles to a count, so such patterns need not agree:
      `a{2}` expands to itself, its expression matches "aa". */
  lemma CountDisagrees()
    ensures !RegexDenotes(CompileNode(TreeOf(Twice()), false), Expansion(TreeOf(Twice())))
  {
    hide CompileNode, Expansion, TreeOf, Matches, ParseRegex, Denote;
    TwiceText();
    TwiceParses();
    TwiceMatches();
    TreeCompiles(Twice());
    ExpansionDenotes(Twice());
    TwiceMeans();
    assert |"aa"| == 2;
  }

  lemma TwiceMeans()
    ensures "aa" !in Denote(Twice())
  {
    hide Denote;
    CharStands('a', Twice().rest, "aa", 0, 2);
    if Stands(Twice().rest, "aa", 1, 2) {
      GroupSplits(Last(Char('2', Nil)), Nil, "aa", 1, 2);
      var b :| 1 <= b <= 2 && GroupStands(Last(Char('2', Nil)), "aa", 1, b) && Stands(Nil, "aa", b, 2);
      PlainGroupStands(Char('2', Nil), "aa", 1, b);
      assert false;
    }
    assert "aa"[0..2] == "aa";
  }

  function DoubleComma(): (p: Pattern) {
    Group(More(Char('a', Nil), More(Nil, Last(Char('b', Nil)))), Nil)
  }

  lemma DoubleCommaText()
    ensures BracePattern.Text(DoubleComma()) == "{a,,b}"
  {
    hide Denote;
    OneString('a');
    OneString('b');
    var inner := More(Nil, Last(Char('b', Nil)));
    assert AltsText(inner) == "" + "," + "b" == ",b";
    assert AltsText(DoubleComma().alts) == "a" + "," + ",b" == "a,,b";
    assert "{" + "a,,b" + "}" + "" == "{a,,b}";
  }

  lemma DoubleCommaMeans()
    ensures Denote(DoubleComma()) == ["a", "", "b"]
  {
    hide Cross;
    OneString('a');
    OneString('b');
    CrossWithNothing(["a", "", "b"]);
    assert DenoteAlts(More(Nil, Last(Char('b', Nil)))) == [""] + ["b"] == ["", "b"];
    assert DenoteAlts(DoubleComma().alts) == ["a"] + ["", "b"] == ["a", "", "b"];
  }

  lemma DoubleCommaCompacted()
    ensures Denote(Compacted(DoubleComma())) == ["a", "b"]
  {
    hide Cross;
    OneString('a');
    OneString('b');
    CrossWithNothing(["a", "b"]);
    var alts := More(Char('a', Nil), Last(Char('b', Nil)));
    assert CompactedAlts(DoubleComma().alts, true) == alts;
    assert DenoteAlts(alts) == ["a"] + ["b"] == ["a", "b"];
  }

  /** For `{a,,b}` they disagree: the expansion lists the empty string, the expression does
      not match it. */
  lemma AdjacentCommasDisagree()
    ensures BracePattern.Text(DoubleComma()) == "{a,,b}"
    ensures "" in Denote(DoubleComma()) && "" !in Denote(Compacted(DoubleComma()))
    ensures !RegexDenotes(CompileNode(TreeOf(DoubleComma()), false), Expansion(TreeOf(DoubleComma())))
  {
    hide RegexDenotes, CompileNode, Expansion, Denote, Compacted, NoMeta, SameStrings;
    DoubleCommaText();
    DoubleCommaMeans();
    DoubleCommaCompacted();
    LosesEmpty(Denote(Compacted(DoubleComma())), Denote(DoubleComma()));
    BackEndsCompare(DoubleComma());
  }

  lemma LosesEmpty(a: seq<string>, b: seq<string>)
    requires a == ["a", "b"] && b == ["a", "", "b"]
    ensures "" in b && "" !in a && !SameStrings(a, b)
  {
    assert b[1] == "";
  }

  lemma OneString(c: char)
    ensures Denote(Char(c, Nil)) == [[c]] && BracePattern.Text(Char(c, Nil)) == [c]
  {
    assert [c] + "" == [c];
  }

  lemma PrefixedNothing(s: string)
    ensures Prefixed(s, [""]) == [s]
  {
    assert s + "" == s;
  }

  lemma {:induction false} CrossWithNothing(a: seq<string>)
    ensures Cross(a, [""]) == a
    decreases |a|
  {
    if |a| > 0 {
      hide Prefixed;
      CrossWithNothing(a[1..]);
      PrefixedNothing(a[0]);
      assert a == [a[0]] + a[1..];
    }
  }
}
