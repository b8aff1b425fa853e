/** Expansion of a parsed pattern into the list of strings it stands for, by queues of
    partial results that are extended in place. */
module BraceExpand {
  import opened BraceAst
  import opened BracePattern

  /** An element of a queue: a string or a nested array. */
  datatype Item = Str(s: string) | Arr(items: seq<Item>)

  function Flatten(x: Item): (r: seq<string>) {
    match x
    case Str(s) => [s]
    case Arr(items) => FlattenAll(items)
  }

  function FlattenAll(items: seq<Item>): (r: seq<string>) {
    if |items| == 0 then [] else FlattenAll(items[..|items| - 1]) + Flatten(items[|items| - 1])
  }

  /** No array anywhere inside is empty. */
  predicate Proper(x: Item) {
    match x
    case Str(_) => true
    case Arr(items) => |items| > 0 && forall i :: 0 <= i < |items| ==> Proper(items[i])
  }

  function ItemsOf(x: Item): (r: seq<Item>) {
    match x
    case Str(_) => [x]
    case Arr(items) => items
  }

  function Strings(ss: seq<string>): (r: seq<Item>)
    ensures |r| == |ss|
  {
    seq(|ss|, i requires 0 <= i < |ss| => Str(ss[i]))
  }

  /** `{s}` for each string, if asked for. */
  function Enclose(enclose: bool, ss: seq<string>): (r: seq<string>)
    ensures |r| == |ss|
  {
    if enclose then seq(|ss|, i requires 0 <= i < |ss| => "{" + ss[i] + "}") else ss
  }

  // --- laws of the product ---

  lemma {:induction false} CrossConcat(a: seq<string>, b: seq<string>, c: seq<string>)
    ensures Cross(a + b, c) == Cross(a, c) + Cross(b, c)
    decreases |a|
  {
    if |a| == 0 {
      assert a + b == b;
    } else {
      assert (a + b)[1..] == a[1..] + b;
      CrossConcat(a[1..], b, c);
    }
  }

  lemma {:induction false} CrossOne(s: string, b: seq<string>)
    ensures Cross([s], b) == Prefixed(s, b)
  {
    assert [s][1..] == [];
  }

  lemma {:induction false} CrossOneConcat(s: string, a: seq<string>, b: seq<string>)
    ensures Cross([s], a + b) == Cross([s], a) + Cross([s], b)
  {
    CrossOne(s, a + b);
    CrossOne(s, a);
    CrossOne(s, b);
  }

  lemma CrossSingle(s: string, t: string)
    ensures Cross([s], [t]) == [s + t]
  {
    CrossOne(s, [t]);
  }

  lemma {:induction false} CrossUnit(b: seq<string>)
    ensures Cross([""], b) == b
  {
    CrossOne("", b);
    assert forall i :: 0 <= i < |b| ==> "" + b[i] == b[i];
  }

  lemma {:induction false} CrossUnitRight(a: seq<string>)
    ensures Cross(a, [""]) == a
  {
    if |a| > 0 {
      CrossUnitRight(a[1..]);
      assert a[0] + "" == a[0];
      assert Prefixed(a[0], [""]) == [a[0]];
      assert a == [a[0]] + a[1..];
    }
  }

  lemma PrefixedTwice(s: string, t: string, b: seq<string>)
    ensures Prefixed(s + t, b) == Prefixed(s, Prefixed(t, b))
  {
    assert forall i :: 0 <= i < |b| ==> (s + t) + b[i] == s + (t + b[i]);
  }

  lemma {:induction false} PrefixedCross(s: string, a: seq<string>, b: seq<string>)
    ensures Cross(Prefixed(s, a), b) == Prefixed(s, Cross(a, b))
    decreases |a|
  {
    if |a| > 0 {
      var p := Prefixed(s, a);
      assert p[1..] == Prefixed(s, a[1..]);
      PrefixedCross(s, a[1..], b);
      PrefixedTwice(s, a[0], b);
      assert Cross(p, b) == Prefixed(s, Prefixed(a[0], b)) + Prefixed(s, Cross(a[1..], b));
      assert Prefixed(s, Prefixed(a[0], b) + Cross(a[1..], b))
          == Prefixed(s, Prefixed(a[0], b)) + Prefixed(s, Cross(a[1..], b));
    }
  }

  lemma {:induction false} CrossAssociative(a: seq<string>, b: seq<string>, c: seq<string>)
    ensures Cross(Cross(a, b), c) == Cross(a, Cross(b, c))
    decreases |a|
  {
    if |a| > 0 {
      CrossConcat(Prefixed(a[0], b), Cross(a[1..], b), c);
      PrefixedCross(a[0], b, c);
      CrossAssociative(a[1..], b, c);
    }
  }

  // --- appending ---

  lemma {:induction false} FlattenSnoc(items: seq<Item>, x: Item)
    ensures FlattenAll(items + [x]) == FlattenAll(items) + Flatten(x)
  {
    assert (items + [x])[..|items|] == items;
  }

  lemma {:induction false} FlattenStrings(ss: seq<string>)
    ensures FlattenAll(Strings(ss)) == ss
  {
    if |ss| > 0 {
      FlattenStrings(ss[..|ss| - 1]);
      assert Strings(ss)[..|ss| - 1] == Strings(ss[..|ss| - 1]);
    }
  }

  lemma EncloseConcat(enclose: bool, a: seq<string>, b: seq<string>)
    ensures Enclose(enclose, a + b) == Enclose(enclose, a) + Enclose(enclose, b)
  {
  }

  /** A queue element extended by everything in the stash: the product, flattened. */
  method Append(queue: Item, stash: Item, enclose: bool) returns (r: seq<Item>)
    ensures stash == Arr([]) ==> r == ItemsOf(queue)
    ensures queue == Arr([]) && stash != Arr([]) && !enclose ==> r == ItemsOf(stash)
    ensures Proper(queue) && Proper(stash) ==>
      r == Strings(Cross(Flatten(queue), Enclose(enclose, Flatten(stash))))
    decreases stash, queue, 1
  {
    hide Cross, Enclose, Prefixed, FlattenAll;
    var items := ItemsOf(queue);
    if |ItemsOf(stash)| == 0 {
      return items;
    }
    if |items| == 0 {
      return if enclose then Strings(Enclose(true, Flatten(stash))) else ItemsOf(stash);
    }
    ghost var right := Enclose(enclose, Flatten(stash));
    var result: seq<Item> := [];
    NothingCrossed(right);
    for k := 0 to |items|
      invariant Proper(queue) && Proper(stash) ==> FlattenAll(result) == Cross(FlattenAll(items[..k]), right)
    {
      OneMoreItem(items, k, right);
      if items[k].Arr? {
        result := AppendValues(items[k], stash, enclose, result);
      } else {
        result := AppendString(items[k], stash, enclose, result);
      }
    }
    assert items[..|items|] == items;
    FlattenItems(queue);
    r := Strings(FlattenAll(result));
  }

  lemma {:induction false} OneMoreItem(items: seq<Item>, k: nat, right: seq<string>)
    requires k < |items|
    ensures Cross(FlattenAll(items[..k + 1]), right)
         == Cross(FlattenAll(items[..k]), right) + Cross(Flatten(items[k]), right)
  {
    hide Cross, FlattenAll, Flatten;
    assert items[..k + 1] == items[..k] + [items[k]];
    FlattenSnoc(items[..k], items[k]);
    CrossConcat(FlattenAll(items[..k]), Flatten(items[k]), right);
  }

  lemma {:induction false} NothingCrossed(right: seq<string>)
    ensures FlattenAll([]) == [] && Cross([], right) == []
  {
  }

  lemma {:induction false} FlattenItems(x: Item)
    ensures FlattenAll(ItemsOf(x)) == Flatten(x)
  {
    if x.Str? {
      assert [x][..0] == [];
    }
  }

  /** A nested array in the queue: each of its values is extended on its own. */
  method AppendValues(item: Item, stash: Item, enclose: bool, result: seq<Item>) returns (r: seq<Item>)
    requires item.Arr?
    ensures Proper(item) && Proper(stash) ==>
      FlattenAll(r) == FlattenAll(result) + Cross(Flatten(item), Enclose(enclose, Flatten(stash)))
    decreases stash, item, 0
  {
    hide Cross, Enclose, Prefixed, FlattenAll;
    r := result;
    ghost var right := Enclose(enclose, Flatten(stash));
    NothingCrossed(right);
    for k := 0 to |item.items|
      invariant Proper(item) && Proper(stash) ==>
        FlattenAll(r) == FlattenAll(result) + Cross(FlattenAll(item.items[..k]), right)
    {
      var value := item.items[k];
      var extended := Append(value, stash, enclose);
      OneMoreItem(item.items, k, right);
      FlattenSnoc(r, Arr(extended));
      FlattenStrings(Cross(Flatten(value), right));
      r := r + [Arr(extended)];
    }
    assert item.items[..|item.items|] == item.items;
  }

  /** A string in the queue: one result for each element of the stash. */
  method AppendString(item: Item, stash: Item, enclose: bool, result: seq<Item>) returns (r: seq<Item>)
    requires item.Str?
    ensures Proper(stash) ==>
      FlattenAll(r) == FlattenAll(result) + Cross([item.s], Enclose(enclose, Flatten(stash)))
    decreases stash, item, 0
  {
    hide Cross, Prefixed, Enclose, FlattenAll;
    r := result;
    var more := ItemsOf(stash);
    CrossNothing(item.s, enclose);
    for k := 0 to |more|
      invariant Proper(stash) ==>
        FlattenAll(r) == FlattenAll(result) + Cross([item.s], Enclose(enclose, FlattenAll(more[..k])))
    {
      var ele := more[k];
      AppendOne(item.s, more, k, enclose);
      if ele.Arr? {
        var extended := Append(item, ele, enclose);
        FlattenSnoc(r, Arr(extended));
        FlattenStrings(Cross([item.s], Enclose(enclose, Flatten(ele))));
        r := r + [Arr(extended)];
      } else {
        var s := if enclose then "{" + ele.s + "}" else ele.s;
        FlattenSnoc(r, Str(item.s + s));
        EncloseSingle(enclose, ele.s);
        CrossSingle(item.s, s);
        r := r + [Str(item.s + s)];
      }
    }
    assert more[..|more|] == more;
    FlattenItems(stash);
  }

  /** One more element of the stash adds its own product. */
  lemma AppendOne(s: string, more: seq<Item>, k: nat, enclose: bool)
    requires k < |more|
    ensures Cross([s], Enclose(enclose, FlattenAll(more[..k + 1])))
         == Cross([s], Enclose(enclose, FlattenAll(more[..k]))) + Cross([s], Enclose(enclose, Flatten(more[k])))
  {
    hide Cross, Enclose, FlattenAll, Flatten;
    assert more[..k + 1] == more[..k] + [more[k]];
    FlattenSnoc(more[..k], more[k]);
    EncloseConcat(enclose, FlattenAll(more[..k]), Flatten(more[k]));
    CrossOneConcat(s, Enclose(enclose, FlattenAll(more[..k])), Enclose(enclose, Flatten(more[k])));
  }

  lemma EncloseSingle(enclose: bool, s: string)
    ensures Enclose(enclose, [s]) == [if enclose then "{" + s + "}" else s]
  {
  }

  lemma CrossNothing(s: string, enclose: bool)
    ensures Enclose(enclose, []) == [] && Cross([s], []) == [] && FlattenAll([]) == []
  {
    CrossOne(s, []);
  }

  // --- walking the tree ---

  /** Text a node carries itself, empty if none. */
  function OwnText(node: Node): (s: string) {
    match node
    case Leaf(_, value, _, _) => value
    case Block(_, own, _, _, _, _, _, _) => if own.Some? then own.value else ""
  }

  /** Trees without numeric ranges; a closing brace stands in braces only. */
  predicate Walkable(node: Node) {
    node.Block? ==>
      && node.ranges == 0 && node.kind in {Root, Paren, Brace}
      && forall i :: 0 <= i < |node.nodes| ==>
           Walkable(node.nodes[i]) && (node.nodes[i].kind == Close ==> node.kind == Brace)
  }

  /** Extending the last element of a queue, which starts as the empty string. */
  function Join(q: seq<seq<string>>, more: seq<string>): (r: seq<seq<string>>)
    ensures |r| > 0
  {
    var last := if |q| == 0 then [""] else q[|q| - 1];
    (if |q| == 0 then [] else q[..|q| - 1]) + [if |more| == 0 then last else Cross(last, more)]
  }

  function Union(q: seq<seq<string>>): (r: seq<string>) {
    if |q| == 0 then [] else Union(q[..|q| - 1]) + q[|q| - 1]
  }

  /** The queue of the block being walked and the queue of the block around it. */
  datatype Queues = Queues(inner: seq<seq<string>>, outer: seq<seq<string>>)

  /** What walking a block does to the queue around it. */
  function Walked(node: Node, q: seq<seq<string>>): (r: seq<seq<string>>)
    requires node.Block?
    decreases node, 0
  {
    if node.invalid || node.dollar then Join(q, [Stringify(node)])
    else if node.kind == Brace && |node.nodes| == 2 then Join(q, ["{}"])
    else if node.kind == Brace then WalkedAll(node.nodes, true, node.commas == 0, Queues([], q)).outer
    else WalkedAll(node.nodes, false, false, Queues(q, [])).inner
  }

  /** What the child at position `i` does to the queues. */
  function WalkedChild(child: Node, i: nat, brace: bool, enclose: bool, st: Queues): (r: Queues)
    decreases child, 1
  {
    if child.kind == Comma && brace then
      st.(inner := st.inner + (if i == 1 then [[""]] else []) + [[""]])
    else if child.kind == Close then
      st.(outer := Join(st.outer, Enclose(enclose, Union(st.inner))))
    else if OwnText(child) != "" && child.kind != Open then
      st.(inner := Join(st.inner, [OwnText(child)]))
    else if child.Block? then
      st.(inner := Walked(child, st.inner))
    else
      st
  }

  function WalkedAll(nodes: seq<Node>, brace: bool, enclose: bool, start: Queues): (r: Queues)
    decreases nodes
  {
    var n := |nodes|;
    if n == 0 then start
    else WalkedChild(nodes[n - 1], n - 1, brace, enclose, WalkedAll(nodes[..n - 1], brace, enclose, start))
  }

  /** The expansion of a whole tree. */
  function Expansion(root: Node): (r: seq<string>)
    requires root.Block?
  {
    Union(WalkedAll(root.nodes, false, false, Queues([], [])).inner)
  }

  /** A queue updated in place. */
  class Queue {
    var items: seq<Item>

    constructor ()
      ensures items == []
    {
      items := [];
    }

    /** Its elements as lists of strings. */
    function Lists(): (q: seq<seq<string>>)
      reads this
      ensures |q| == |items|
    {
      seq(|items|, i requires 0 <= i < |items| reads this => Flatten(items[i]))
    }

    predicate AllProper()
      reads this
    {
      forall i :: 0 <= i < |items| ==> Proper(items[i])
    }

    method Push(x: Item)
      requires AllProper() && Proper(x)
      modifies this
      ensures AllProper() && Lists() == old(Lists()) + [Flatten(x)]
    {
      items := items + [x];
    }

    /** Replaces the last element by its product with the stash. */
    method Extend(stash: Item, enclose: bool)
      requires AllProper() && (Proper(stash) || stash == Arr([]))
      modifies this
      ensures AllProper() && Lists() == Join(old(Lists()), Enclose(enclose, Flatten(stash)))
    {
      ghost var before := Lists();
      var last, rest := Str(""), items;
      if |items| > 0 {
        last, rest := items[|items| - 1], items[..|items| - 1];
      }
      var joined := Append(last, stash, enclose);
      AppendedFlat(last, stash, enclose, joined);
      items := rest + [Arr(joined)];
    }
  }

  lemma {:induction false} AppendedFlat(last: Item, stash: Item, enclose: bool, joined: seq<Item>)
    requires Proper(last) && (Proper(stash) || stash == Arr([]))
    requires stash == Arr([]) ==> joined == ItemsOf(last)
    requires Proper(stash) ==> joined == Strings(Cross(Flatten(last), Enclose(enclose, Flatten(stash))))
    ensures Proper(Arr(joined))
    ensures var more := Enclose(enclose, Flatten(stash));
      FlattenAll(joined) == if |more| == 0 then Flatten(last) else Cross(Flatten(last), more)
  {
    if stash == Arr([]) {
      FlattenItems(last);
    } else {
      FlattenStrings(Cross(Flatten(last), Enclose(enclose, Flatten(stash))));
      ProperNotEmpty(last);
      ProperNotEmpty(stash);
      assert |Flatten(last)| * |Flatten(stash)| > 0;
    }
  }

  lemma {:induction false} ProperNotEmpty(x: Item)
    requires Proper(x)
    ensures |Flatten(x)| > 0
  {
    match x
    case Str(_) =>
    case Arr(items) => ProperNotEmpty(items[|items| - 1]);
  }

  predicate AllWalkable(nodes: seq<Node>, brace: bool) {
    forall i :: 0 <= i < |nodes| ==> Walkable(nodes[i]) && (nodes[i].kind == Close ==> brace)
  }

  lemma UnionOfLists(queue: Queue)
    ensures FlattenAll(queue.items) == Union(queue.Lists())
  {
    UnionOfItems(queue.items, queue.Lists());
  }

  lemma {:induction false} UnionOfItems(items: seq<Item>, lists: seq<seq<string>>)
    requires |items| == |lists| && forall i :: 0 <= i < |items| ==> lists[i] == Flatten(items[i])
    ensures FlattenAll(items) == Union(lists)
  {
    if |items| > 0 {
      UnionOfItems(items[..|items| - 1], lists[..|lists| - 1]);
    }
  }

  /** Walks one block: its results are joined to the queue around it. */
  method WalkNode(node: Node, q: Queue)
    requires node.Block? && Walkable(node) && q.AllProper()
    modifies q
    ensures q.AllProper() && q.Lists() == Walked(node, old(q.Lists()))
    decreases node, 0
  {
    hide Join, Walkable;
    if node.invalid || node.dollar {
      q.Extend(Str(Stringify(node)), false);
      return;
    }
    if node.kind == Brace && |node.nodes| == 2 {
      q.Extend(Str("{}"), false);
      return;
    }
    var other := new Queue();
    ChildrenWalkable(node);
    if node.kind == Brace {
      WalkChildren(node.nodes, true, node.commas == 0, other, q);
    } else {
      WalkChildren(node.nodes, false, false, q, other);
    }
  }

  lemma {:induction false} ChildrenWalkable(node: Node)
    requires node.Block? && Walkable(node)
    ensures AllWalkable(node.nodes, node.kind == Brace)
  {
  }

  /** Walks the children of a block, filling `queue`; a closing brace hands its contents
      to `q`, the queue around it. */
  method WalkChildren(nodes: seq<Node>, brace: bool, enclose: bool, queue: Queue, q: Queue)
    requires AllWalkable(nodes, brace) && queue != q && queue.AllProper() && q.AllProper()
    modifies queue, q
    ensures queue.AllProper() && q.AllProper()
    ensures Queues(queue.Lists(), q.Lists())
         == WalkedAll(nodes, brace, enclose, Queues(old(queue.Lists()), old(q.Lists())))
    decreases nodes
  {
    hide WalkedChild, Proper, Walkable;
    ghost var start := Queues(queue.Lists(), q.Lists());
    assert nodes[..0] == [];
    for i := 0 to |nodes|
      invariant queue.AllProper() && q.AllProper()
      invariant Queues(queue.Lists(), q.Lists()) == WalkedAll(nodes[..i], brace, enclose, start)
    {
      assert nodes[..i + 1][..i] == nodes[..i];
      WalkChild(nodes[i], i, brace, enclose, queue, q);
    }
    assert nodes[..|nodes|] == nodes;
  }

  method WalkChild(child: Node, i: nat, brace: bool, enclose: bool, queue: Queue, q: Queue)
    requires Walkable(child) && (child.kind == Close ==> brace)
    requires queue != q && queue.AllProper() && q.AllProper()
    modifies queue, q
    ensures queue.AllProper() && q.AllProper()
    ensures Queues(queue.Lists(), q.Lists())
         == WalkedChild(child, i, brace, enclose, Queues(old(queue.Lists()), old(q.Lists())))
    decreases child, 1
  {
    hide Join, Walkable, Walked, OwnText, Union;
    if child.kind == Comma && brace {
      if i == 1 {
        queue.Push(Str(""));
      }
      queue.Push(Str(""));
    } else if child.kind == Close {
      StashProper(queue.items);
      UnionOfLists(queue);
      q.Extend(Arr(queue.items), enclose);
    } else if OwnText(child) != "" && child.kind != Open {
      queue.Extend(Str(OwnText(child)), false);
    } else if child.Block? {
      WalkNode(child, queue);
    }
  }

  lemma StashProper(items: seq<Item>)
    requires forall i :: 0 <= i < |items| ==> Proper(items[i])
    ensures Proper(Arr(items)) || Arr(items) == Arr([])
  {
  }

  method Expand(root: Node) returns (r: seq<string>)
    requires root.Block? && AllWalkable(root.nodes, false)
    ensures r == Expansion(root)
  {
    var queue := new Queue();
    var none := new Queue();
    assert queue.Lists() == [] && none.Lists() == [];
    WalkChildren(root.nodes, false, false, queue, none);
    UnionOfLists(queue);
    r := FlattenAll(queue.items);
  }
}
