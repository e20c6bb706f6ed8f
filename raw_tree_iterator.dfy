/** The iterators of the raw tree: a cursor over one node (or none, the end) that walks the
    tree in pre-order or in-order, leaning toward the `wing` side, by following child and
    parent links one step at a time. */
module RawTreeIterator {
  import opened Sides
  import opened Wrappers
  import opened BinaryTree
  import opened RawTree

  /** The path `q` runs from `p` down through `wing` children only. */
  ghost predicate WingDescendant(p: Path, q: Path, wing: Side)
  {
    |p| <= |q| && q[..|p|] == p && forall k :: |p| <= k < |q| ==> q[k] == wing
  }

  lemma WingDescendantSnoc(p: Path, q: Path, wing: Side)
    requires WingDescendant(p, q, wing)
    ensures WingDescendant(p, q + [wing], wing)
  {
    assert (q + [wing])[..|p|] == q[..|p|];
  }

  /** From node `n`, follow `wing` children as long as there is one: the result is the first
      node of `n`'s subtree in the in-order traversal leaning toward `wing`. */
  method WingMost<T>(t: Raw<T>, n: NodeId, wing: Side) returns (m: NodeId)
    requires Valid(t) && n in t.nodes
    ensures m in t.nodes && ChildLink(t.nodes[m], wing).None?
    ensures WingDescendant(PathOf(t, n), PathOf(t, m), wing)
    ensures InIndex(ShapeOf(t), PathOf(t, m), wing) == InOffset(ShapeOf(t), PathOf(t, n), wing)
  {
    ghost var shape := ShapeOf(t);
    ghost var pn := PathOf(t, n);
    ghost var pm := pn;
    m := n;
    LinkChild(t, pm, wing);
    while ChildLink(t.nodes[m], wing).Some?
      invariant ValidPath(shape, pm) && m == At(shape, pm).value && m in t.nodes
      invariant WingDescendant(pn, pm, wing)
      invariant InOffset(shape, pm, wing) == InOffset(shape, pn, wing)
      invariant ChildLink(t.nodes[m], wing) == RootOf(At(shape, pm + [wing]))
      decreases Size(At(shape, pm))
    {
      ParentSnoc(pm, wing);
      WingDescendantSnoc(pn, pm, wing);
      m := ChildLink(t.nodes[m], wing).value;
      pm := pm + [wing];
      LinkChild(t, pm, wing);
    }
    ParentSnoc(pm, wing);
    PathOfAt(t, pm);
  }

  /** An iterator of the raw tree `tree`: `node` is the node it points at, `None` once it has
      run off the end. `order` and `wing` are the template parameters of the source. */
  class Iterator<T> {
    const tree: Raw<T>
    const order: Order
    const wing: Side
    var node: Option<NodeId>

    ghost predicate Valid()
      reads this
    {
      RawTree.Valid(tree) && (node.Some? ==> node.value in tree.nodes)
    }

    /** The sequence of nodes this iterator walks through. */
    ghost function Sequence(): seq<NodeId>
      reads this
      requires RawTree.Valid(tree)
    {
      Traversal(tree, order, wing)
    }

    /** Starts at the root: in pre-order the root itself, in-order the node reached by
        following `wing` children from the root, which has no `wing` child. Either way it is
        the first node of the traversal. */
    constructor (t: Raw<T>, order: Order, wing: Side)
      requires RawTree.Valid(t)
      ensures this.tree == t && this.order == order && this.wing == wing
      ensures Valid() && node == Some(Sequence()[0])
      ensures order == Pre ==> node == Some(t.root)
      ensures order == In ==> node.Some? && ChildLink(t.nodes[node.value], wing).None?
                              && WingDescendant([], PathOf(t, node.value), wing)
    {
      this.tree := t;
      this.order := order;
      this.wing := wing;
      RootPath(t);
      if order == Pre {
        node := Some(t.root);
        PreIndexed(ShapeOf(t), [], wing);
      } else {
        var m := WingMost(t, t.root, wing);
        node := Some(m);
        InIndexed(ShapeOf(t), PathOf(t, m), wing);
      }
    }

    /** A copy of an iterator of any order and wing: only the node is taken over. */
    constructor Convert(other: Iterator<T>, order: Order, wing: Side)
      requires other.Valid()
      ensures Valid() && tree == other.tree && node == other.node
      ensures this.order == order && this.wing == wing
    {
      this.tree := other.tree;
      this.order := order;
      this.wing := wing;
      node := other.node;
    }

    /** Two iterators of the same kind are equal when they point at the same node. */
    method Equals(other: Iterator<T>) returns (r: bool)
      requires other.order == order && other.wing == wing
      ensures r <==> node == other.node
    {
      r := node == other.node;
    }

    method NotEquals(other: Iterator<T>) returns (r: bool)
      requires other.order == order && other.wing == wing
      ensures r <==> node != other.node
    {
      r := node != other.node;
    }

    /** `operator++`: moves to the next node of the traversal, or to the end after the last
        one; the end stays the end. */
    method Increment()
      requires Valid()
      modifies this
      ensures Valid() && node == Successor(Sequence(), old(node))
    {
      if order == Pre {
        PreorderIncrement();
      } else {
        InorderIncrement();
      }
    }

    /** `operator++(int)`: advances like `Increment` and returns a copy of the iterator as it
        was before. */
    method PostIncrement() returns (previous: Iterator<T>)
      requires Valid()
      modifies this
      ensures fresh(previous) && previous.Valid()
      ensures previous.tree == tree && previous.order == order && previous.wing == wing
      ensures previous.node == old(node)
      ensures Valid() && node == Successor(Sequence(), old(node))
    {
      previous := new Iterator.Convert(this, order, wing);
      Increment();
    }

    /** The pre-order step: down to the `wing` child when there is one; otherwise up the
        parent links to the first ancestor whose other child exists and was not just climbed
        out of, and into that child; the end when there is no such ancestor. */
    method PreorderIncrement()
      requires Valid()
      modifies this
      ensures Valid() && node == Successor(PreOrder(ShapeOf(tree), wing), old(node))
    {
      if node.None? {
        return;
      }
      ghost var shape := ShapeOf(tree);
      var n := node.value;
      ghost var p0 := PathOf(tree, n);
      ghost var i := PreOffset(shape, p0, wing);
      LinkChild(tree, p0, wing);
      ParentSnoc(p0, wing);
      var down := ChildLink(tree.nodes[n], wing);
      if down.Some? {
        PreSuccessor(shape, wing, p0, p0 + [wing]);
        PathOfAt(tree, p0 + [wing]);
        node := down;
        return;
      }
      // `pc` is the slot just climbed out of: at first the empty `wing` slot below `n`.
      var child: Option<NodeId> := None;
      ghost var pc := p0 + [wing];
      while node.Some?
        invariant pc != [] ==> ValidPath(shape, Parent(pc))
        invariant child == RootOf(At(shape, pc))
        invariant PreOffset(shape, pc, wing) + Size(At(shape, pc)) == i + 1
        invariant node.None? <==> pc == []
        invariant node.Some? ==> node.value == At(shape, Parent(pc)).value
        decreases |pc|
      {
        var cur := node.value;
        ghost var q := Parent(pc);
        LinkChild(tree, q, Other(wing));
        LinkParent(tree, q);
        ParentSnoc(q, Other(wing));
        PreClimb(shape, pc, wing);
        var otherChild := ChildLink(tree.nodes[cur], Other(wing));
        if otherChild.Some? && otherChild != child {
          PreSuccessor(shape, wing, p0, q + [Other(wing)]);
          PathOfAt(tree, q + [Other(wing)]);
          node := otherChild;
          break;
        }
        if Last(pc) == wing && otherChild.Some? {
          assert pc == q + [wing];
          PathsDistinct(shape, pc, q + [Other(wing)]);
        }
        child := node;
        node := tree.nodes[cur].parent;
        pc := q;
      }
      if node.None? {
        PreSuccessorLast(shape, wing, p0);
      }
    }

    /** The in-order step: into the other child and then down its `wing` children as far as
        they go, when there is another child; otherwise up the parent links to the first
        ancestor climbed into from its `wing` side; the end when there is none. */
    method InorderIncrement()
      requires Valid()
      modifies this
      ensures Valid() && node == Successor(InOrder(ShapeOf(tree), wing), old(node))
    {
      if node.None? {
        return;
      }
      ghost var shape := ShapeOf(tree);
      var n := node.value;
      ghost var p0 := PathOf(tree, n);
      ghost var i := InIndex(shape, p0, wing);
      LinkChild(tree, p0, Other(wing));
      ParentSnoc(p0, Other(wing));
      var down := ChildLink(tree.nodes[n], Other(wing));
      if down.Some? {
        PathOfAt(tree, p0 + [Other(wing)]);
        var m := WingMost(tree, down.value, wing);
        InSuccessor(shape, wing, p0, PathOf(tree, m));
        node := Some(m);
        return;
      }
      // `pc` is the slot just climbed out of: at first the empty other slot below `n`.
      var child: Option<NodeId> := None;
      ghost var pc := p0 + [Other(wing)];
      while node.Some?
        invariant pc != [] ==> ValidPath(shape, Parent(pc))
        invariant child == RootOf(At(shape, pc))
        invariant pc != [] && Last(pc) == wing ==> child.Some?
        invariant InOffset(shape, pc, wing) + Size(At(shape, pc)) == i + 1
        invariant node.None? <==> pc == []
        invariant node.Some? ==> node.value == At(shape, Parent(pc)).value
        decreases |pc|
      {
        var cur := node.value;
        ghost var q := Parent(pc);
        LinkChild(tree, q, Other(wing));
        LinkParent(tree, q);
        ParentSnoc(q, Other(wing));
        InClimb(shape, pc, wing);
        var otherChild := ChildLink(tree.nodes[cur], Other(wing));
        if otherChild != child {
          InSuccessor(shape, wing, p0, q);
          return;
        }
        if Last(pc) == wing {
          assert pc == q + [wing];
          PathsDistinct(shape, pc, q + [Other(wing)]);
        }
        child := node;
        node := tree.nodes[cur].parent;
        pc := q;
      }
      InSuccessorLast(shape, wing, p0);
    }
  }

  /** Starting from the constructed iterator and incrementing until the end visits exactly
      the traversal of the tree, each node once, and then reaches the end. */
  method Walk<T>(t: Raw<T>, order: Order, wing: Side) returns (visited: seq<NodeId>)
    requires Valid(t)
    ensures visited == Traversal(t, order, wing)
  {
    var it := new Iterator(t, order, wing);
    ghost var xs := Traversal(t, order, wing);
    if order == Pre {
      PreOrderDistinct(ShapeOf(t), wing);
    } else {
      InOrderDistinct(ShapeOf(t), wing);
    }
    visited := [];
    while it.node.Some?
      invariant it.Valid() && it.tree == t && it.order == order && it.wing == wing
      invariant |visited| <= |xs| && visited == xs[..|visited|]
      invariant it.node == if |visited| < |xs| then Some(xs[|visited|]) else None
      decreases |xs| - |visited|
    {
      SuccessorAt(xs, |visited|);
      visited := visited + [it.node.value];
      it.Increment();
    }
  }
}
