/** Syntax trees of brace patterns and the printer that turns them back into text. */
module BraceAst {
  import opened Prelude

  datatype Kind = Bos | Eos | Text | Dot | Range | Comma | Open | Close | Root | Paren | Brace

  /** A leaf carries text; a block carries children. A block has no text of its own unless
      an assignment `value += ...` once gave it some. `afterComma` records that the node
      pushed before this leaf was a comma. */
  datatype Node =
    | Leaf(kind: Kind, value: string, afterComma: bool, invalid: bool)
    | Block(kind: Kind, own: Option<string>, nodes: seq<Node>, closed: bool, dollar: bool,
            commas: nat, ranges: nat, invalid: bool)

  /** The printer: a node's own text, or else the concatenation of its children. */
  function Stringify(node: Node): (s: string) {
    match node
    case Leaf(_, value, _, _) => value
    case Block(_, own, nodes, _, _, _, _, _) =>
      if own.Some? && own.value != "" then own.value else StringifyAll(nodes)
  }

  function StringifyAll(nodes: seq<Node>): (s: string) {
    if |nodes| == 0 then "" else StringifyAll(nodes[..|nodes| - 1]) + Stringify(nodes[|nodes| - 1])
  }

  lemma {:induction false} StringifyConcat(a: seq<Node>, b: seq<Node>)
    ensures StringifyAll(a + b) == StringifyAll(a) + StringifyAll(b)
    decreases |b|
  {
    if |b| == 0 {
      assert a + b == a;
    } else {
      assert (a + b)[..|a + b| - 1] == a + b[..|b| - 1];
      StringifyConcat(a, b[..|b| - 1]);
    }
  }

  lemma {:induction false} StringifyOne(node: Node)
    ensures StringifyAll([node]) == Stringify(node)
  {
    assert [node][..0] == [];
  }

  lemma {:induction false} StringifySnoc(nodes: seq<Node>, node: Node)
    ensures StringifyAll(nodes + [node]) == StringifyAll(nodes) + Stringify(node)
  {
    StringifyOne(node);
    StringifyConcat(nodes, [node]);
  }
}
