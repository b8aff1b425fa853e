/** The guard over syntax trees handed in from outside: an arbitrary graph of objects, shared
    or cyclic, is accepted exactly when what it reaches is a small tree. */
module BraceGuard {
  import opened Prelude

  const MAX_DEPTH: int := 64
  const MAX_NODES: nat := 10000

  /** A value found in the graph: an object, by identity, or something else. */
  datatype Value = Ref(id: nat) | Other

  /** An object's `nodes` property. */
  datatype Children = Absent | NotArray | Nodes(values: seq<Value>)

  type Graph = nat -> Children

  // --- trees ---

  /** A finite tree of object identities. */
  datatype Tree = Tree(id: nat, children: seq<Tree>)

  /** Unfolding the graph from `v` along `nodes` gives the tree. */
  predicate Unfolds(g: Graph, v: Value, t: Tree)
    decreases t
  {
    && v == Ref(t.id)
    && match g(t.id)
       case Absent => t.children == []
       case NotArray => false
       case Nodes(vs) => |vs| == |t.children| && forall i :: 0 <= i < |vs| ==> Unfolds(g, vs[i], t.children[i])
  }

  function Ids(t: Tree): (ids: seq<nat>)
    decreases t, 0
  {
    [t.id] + IdsOf(t.children)
  }

  function IdsOf(ts: seq<Tree>): (ids: seq<nat>)
    decreases ts, |ts|
  {
    if |ts| == 0 then [] else Ids(ts[0]) + IdsOf(ts[1..])
  }

  /** No node lies more than `d` levels below the root. */
  predicate DepthAtMost(t: Tree, d: int) {
    d >= 0 && forall i :: 0 <= i < |t.children| ==> DepthAtMost(t.children[i], d - 1)
  }

  predicate Distinct(ids: seq<nat>) {
    forall i, j :: 0 <= i < j < |ids| ==> ids[i] != ids[j]
  }

  /** What the guard is for. */
  ghost predicate SmallTree(g: Graph, v: Value) {
    exists t :: Unfolds(g, v, t) && Distinct(Ids(t)) && |Ids(t)| <= MAX_NODES && DepthAtMost(t, MAX_DEPTH)
  }

  // --- the worklist ---

  datatype Pending = Pending(value: Value, depth: int)

  /** The pending values unfold to these trees, none of them too deep. */
  predicate Shapes(g: Graph, pending: seq<Pending>, ts: seq<Tree>) {
    && |ts| == |pending|
    && forall i :: 0 <= i < |ts| ==>
         Unfolds(g, pending[i].value, ts[i]) && DepthAtMost(ts[i], MAX_DEPTH - pending[i].depth)
  }

  /** The identities are distinct, unseen, and there is room for them. */
  predicate Room(ids: seq<nat>, seen: set<nat>) {
    && Distinct(ids) && (forall i :: 0 <= i < |ids| ==> ids[i] !in seen)
    && |seen| + |ids| <= MAX_NODES
  }

  /** The trees the pending values unfold to fit beside what has been seen. */
  predicate Fits(g: Graph, pending: seq<Pending>, seen: set<nat>, ts: seq<Tree>) {
    Shapes(g, pending, ts) && Room(IdsOf(ts), seen)
  }

  ghost predicate CanFit(g: Graph, pending: seq<Pending>, seen: set<nat>) {
    exists ts :: Fits(g, pending, seen, ts)
  }

  lemma {:induction false} IdsConcat(a: seq<Tree>, b: seq<Tree>)
    ensures IdsOf(a + b) == IdsOf(a) + IdsOf(b)
    decreases |a|
  {
    if |a| == 0 {
      assert a + b == b;
    } else {
      assert (a + b)[1..] == a[1..] + b;
      IdsConcat(a[1..], b);
    }
  }

  lemma {:induction false} IdsSnoc(ts: seq<Tree>, t: Tree)
    ensures IdsOf(ts + [t]) == IdsOf(ts) + [t.id] + IdsOf(t.children)
  {
    IdsConcat(ts, [t]);
    assert IdsOf([t]) == Ids(t) + IdsOf([t][1..]);
  }

  /** Children one level further down, in order. */
  function Below(values: seq<Value>, depth: int): (p: seq<Pending>)
    ensures |p| == |values|
    ensures forall i :: 0 <= i < |p| ==> p[i] == Pending(values[i], depth)
  {
    seq(|values|, i requires 0 <= i < |values| => Pending(values[i], depth))
  }

  function ChildValues(c: Children): (values: seq<Value>) {
    if c.Nodes? then c.values else []
  }

  /** Taking `x` out of the middle of distinct identities and counting it as seen instead
      changes nothing. */
  lemma MoveToSeen(a: seq<nat>, x: nat, b: seq<nat>, seen: set<nat>)
    ensures Room(a + [x] + b, seen) <==> x !in seen && Room(a + b, seen + {x})
  {
    var long, short := a + [x] + b, a + b;
    assert long[|a|] == x;
    if Room(long, seen) {
      forall i | 0 <= i < |short| ensures short[i] !in seen + {x} {
        assert short[i] == long[if i < |a| then i else i + 1];
      }
      forall i, j | 0 <= i < j < |short| ensures short[i] != short[j] {
        assert short[i] == long[if i < |a| then i else i + 1] && short[j] == long[if j < |a| then j else j + 1];
      }
    }
    if x !in seen && Room(short, seen + {x}) {
      forall i | 0 <= i < |long| ensures long[i] !in seen && (i != |a| ==> long[i] != x) {
        assert i != |a| ==> long[i] == short[if i < |a| then i else i - 1];
      }
      forall i, j | 0 <= i < j < |long| ensures long[i] != long[j] {
        if i != |a| && j != |a| {
          assert long[i] == short[if i < |a| then i else i - 1] && long[j] == short[if j < |a| then j else j - 1];
        }
      }
    }
  }

  /** One round of the worklist: the popped object is seen, its children wait instead. */
  lemma RoundKeeps(g: Graph, rest: seq<Pending>, id: nat, depth: int, seen: set<nat>)
    requires depth <= MAX_DEPTH && id !in seen && g(id) != NotArray
    ensures CanFit(g, rest + [Pending(Ref(id), depth)], seen)
      <==> CanFit(g, rest + Below(ChildValues(g(id)), depth + 1), seen + {id})
  {
    var top := Pending(Ref(id), depth);
    var down := Below(ChildValues(g(id)), depth + 1);
    if CanFit(g, rest + [top], seen) {
      var ts :| Fits(g, rest + [top], seen, ts);
      ToChildren(g, rest, id, depth, seen, ts);
    }
    if CanFit(g, rest + down, seen + {id}) {
      var us :| Fits(g, rest + down, seen + {id}, us);
      FromChildren(g, rest, id, depth, seen, us);
    }
  }

  lemma ShapesSplit(g: Graph, a: seq<Pending>, b: seq<Pending>, ts: seq<Tree>, us: seq<Tree>)
    requires |a| == |ts|
    ensures Shapes(g, a + b, ts + us) <==> Shapes(g, a, ts) && Shapes(g, b, us)
  {
    hide Unfolds, DepthAtMost;
    var p, vs := a + b, ts + us;
    if Shapes(g, p, vs) {
      forall i | 0 <= i < |ts|
        ensures Unfolds(g, a[i].value, ts[i]) && DepthAtMost(ts[i], MAX_DEPTH - a[i].depth)
      {
        assert p[i] == a[i] && vs[i] == ts[i];
      }
      forall i | 0 <= i < |us|
        ensures Unfolds(g, b[i].value, us[i]) && DepthAtMost(us[i], MAX_DEPTH - b[i].depth)
      {
        assert p[|a| + i] == b[i] && vs[|a| + i] == us[i];
      }
    }
  }

  /** A tree fits under an object exactly when its children fit under the object's children. */
  lemma ShapeOne(g: Graph, id: nat, depth: int, t: Tree)
    requires depth <= MAX_DEPTH && g(id) != NotArray
    ensures Shapes(g, [Pending(Ref(id), depth)], [t])
      <==> t.id == id && Shapes(g, Below(ChildValues(g(id)), depth + 1), t.children)
  {
    var down := Below(ChildValues(g(id)), depth + 1);
    if Shapes(g, [Pending(Ref(id), depth)], [t]) {
      assert Unfolds(g, [Pending(Ref(id), depth)][0].value, [t][0]);
    }
    if t.id == id && Shapes(g, down, t.children) {
      forall i | 0 <= i < |t.children|
        ensures Unfolds(g, ChildValues(g(id))[i], t.children[i]) && DepthAtMost(t.children[i], MAX_DEPTH - depth - 1)
      {
        assert down[i] == Pending(ChildValues(g(id))[i], depth + 1);
      }
    }
  }

  lemma ToChildren(g: Graph, rest: seq<Pending>, id: nat, depth: int, seen: set<nat>, ts: seq<Tree>)
    requires depth <= MAX_DEPTH && id !in seen && g(id) != NotArray
    requires Fits(g, rest + [Pending(Ref(id), depth)], seen, ts)
    ensures |ts| > |rest|
    ensures Fits(g, rest + Below(ChildValues(g(id)), depth + 1), seen + {id}, ts[..|rest|] + ts[|rest|].children)
  {
    hide Shapes, Room;
    var n := |rest|;
    OnePerPending(g, rest + [Pending(Ref(id), depth)], ts);
    var front, t := ts[..n], ts[n];
    assert ts == front + [t];
    ShapesSplit(g, rest, [Pending(Ref(id), depth)], front, [t]);
    ShapeOne(g, id, depth, t);
    ShapesSplit(g, rest, Below(ChildValues(g(id)), depth + 1), front, t.children);
    IdsSnoc(front, t);
    IdsConcat(front, t.children);
    MoveToSeen(IdsOf(front), id, IdsOf(t.children), seen);
  }

  lemma OnePerPending(g: Graph, pending: seq<Pending>, ts: seq<Tree>)
    requires Shapes(g, pending, ts)
    ensures |ts| == |pending|
  {
  }

  lemma FromChildren(g: Graph, rest: seq<Pending>, id: nat, depth: int, seen: set<nat>, us: seq<Tree>)
    requires depth <= MAX_DEPTH && id !in seen && g(id) != NotArray
    requires Fits(g, rest + Below(ChildValues(g(id)), depth + 1), seen + {id}, us)
    ensures |us| >= |rest|
    ensures Fits(g, rest + [Pending(Ref(id), depth)], seen, us[..|rest|] + [Tree(id, us[|rest|..])])
  {
    hide Shapes, Room;
    var n := |rest|;
    var down := Below(ChildValues(g(id)), depth + 1);
    OnePerPending(g, rest + down, us);
    var front, children := us[..n], us[n..];
    var t := Tree(id, children);
    assert us == front + children;
    ShapesSplit(g, rest, down, front, children);
    ShapeOne(g, id, depth, t);
    ShapesSplit(g, rest, [Pending(Ref(id), depth)], front, [t]);
    IdsSnoc(front, t);
    IdsConcat(front, children);
    MoveToSeen(IdsOf(front), id, IdsOf(children), seen);
  }

  /** What can fit is an object, not too deep, not too late, not seen, with proper children. */
  lemma TopFits(g: Graph, rest: seq<Pending>, p: Pending, seen: set<nat>, ts: seq<Tree>)
    requires Fits(g, rest + [p], seen, ts)
    ensures p.value.Ref? && p.depth <= MAX_DEPTH && |seen| + 1 <= MAX_NODES && p.value.id !in seen
    ensures !g(p.value.id).NotArray? && (g(p.value.id).Nodes? ==> |g(p.value.id).values| <= MAX_NODES)
  {
    var n := |rest|;
    var front, t := ts[..n], ts[n];
    assert (rest + [p])[n] == p;
    assert ts == front + [t];
    IdsSnoc(front, t);
    ManyChildren(t.children);
    assert IdsOf(ts)[|IdsOf(front)|] == t.id;
  }

  lemma CannotFit(g: Graph, rest: seq<Pending>, p: Pending, seen: set<nat>)
    requires
      || p.value.Other? || p.depth > MAX_DEPTH || |seen| + 1 > MAX_NODES
      || (p.value.Ref? && (p.value.id in seen || g(p.value.id).NotArray?
                           || (g(p.value.id).Nodes? && |g(p.value.id).values| > MAX_NODES)))
    ensures !CanFit(g, rest + [p], seen)
  {
    hide Fits;
    if CanFit(g, rest + [p], seen) {
      var ts :| Fits(g, rest + [p], seen, ts);
      TopFits(g, rest, p, seen, ts);
      assert false;
    }
  }

  lemma {:induction false} ManyChildren(ts: seq<Tree>)
    ensures |IdsOf(ts)| >= |ts|
  {
    if |ts| > 0 {
      ManyChildren(ts[1..]);
    }
  }

  /** The guard. It accepts exactly the small trees, and ends on every graph. */
  method Ast(g: Graph, input: Value) returns (r: Result<()>)
    ensures r.Ok? <==> SmallTree(g, input)
  {
    hide CanFit, SmallTree;
    var pending := [Pending(input, 0)];
    var seen: set<nat> := {};
    var count: nat := 0;
    AtStart(g, input);
    while |pending| > 0
      invariant count == |seen| <= MAX_NODES
      invariant CanFit(g, pending, seen) <==> SmallTree(g, input)
      decreases MAX_NODES - count, |pending|
    {
      var top := pending[|pending| - 1];
      var rest := pending[..|pending| - 1];
      assert pending == rest + [top];
      pending := rest;
      if top.value.Other? {
        CannotFit(g, rest, top, seen);
        return Rejected;
      }
      if top.depth > MAX_DEPTH || count + 1 > MAX_NODES {
        CannotFit(g, rest, top, seen);
        return Rejected;
      }
      count := count + 1;
      var node := top.value.id;
      if node in seen {
        CannotFit(g, rest, top, seen);
        return Rejected;
      }
      if !g(node).Absent? {
        if g(node).NotArray? || |g(node).values| > MAX_NODES {
          CannotFit(g, rest, top, seen);
          return Rejected;
        }
        pending := PushChildren(rest, g(node).values, top.depth + 1);
      }
      assert pending == rest + Below(ChildValues(g(node)), top.depth + 1);
      RoundKeeps(g, rest, node, top.depth, seen);
      seen := seen + {node};
    }
    AtEnd(g, seen);
    assert pending == [];
    r := Ok(());
  }

  method PushChildren(pending: seq<Pending>, values: seq<Value>, depth: int) returns (r: seq<Pending>)
    ensures r == pending + Below(values, depth)
  {
    r := pending;
    for i := 0 to |values|
      invariant r == pending + Below(values, depth)[..i]
    {
      r := r + [Pending(values[i], depth)];
    }
  }

  lemma AtStart(g: Graph, input: Value)
    ensures CanFit(g, [Pending(input, 0)], {}) <==> SmallTree(g, input)
  {
    if CanFit(g, [Pending(input, 0)], {}) {
      var ts :| Fits(g, [Pending(input, 0)], {}, ts);
      assert ts == [] + [ts[0]];
      IdsSnoc([], ts[0]);
      assert IdsOf(ts) == Ids(ts[0]);
    }
    if SmallTree(g, input) {
      var t :| Unfolds(g, input, t) && Distinct(Ids(t)) && |Ids(t)| <= MAX_NODES && DepthAtMost(t, MAX_DEPTH);
      IdsSnoc([], t);
      assert [] + [t] == [t];
      assert IdsOf([t]) == Ids(t);
      assert Fits(g, [Pending(input, 0)], {}, [t]);
    }
  }

  lemma AtEnd(g: Graph, seen: set<nat>)
    requires |seen| <= MAX_NODES
    ensures CanFit(g, [], seen)
  {
    assert Fits(g, [], seen, []);
  }
}
