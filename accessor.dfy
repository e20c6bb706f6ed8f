/** The accessor: a cursor over the raw tree made of a node and that node's depth. Depth 0 is
    the root; depth -1 is the end, and the node is then the root, so that an end accessor
    stays linked to its tree. */
module Accessor {
  import opened Sides
  import opened Wrappers
  import opened BinaryTree
  import opened RawTree

  /** The constructor's acceptance test: `n` is a node of `t` and climbing `d` parent links
      from it reaches the root; or `d` is -1 and `n` is the root itself. */
  predicate Placed<T>(t: Raw<T>, n: NodeId, d: int)
  {
    n in t.nodes && -1 <= d && if d == -1 then n == t.root else Climb(t, n, d) == Some(t.root)
  }

  /** In a valid tree, the accepted depths are exactly the parent-chain distances. */
  lemma PlacedDepth<T>(t: Raw<T>, n: NodeId, d: int)
    requires Valid(t)
    ensures Placed(t, n, d) <==> n in t.nodes && ((d == -1 && n == t.root) || d == DepthOf(t, n))
  {
    if n in t.nodes && d >= 0 {
      ClimbToRoot(t, n, d);
    }
  }

  /** The longest path both `a` and `b` start with: the path of their lowest common ancestor. */
  function CommonPrefix(a: Path, b: Path): (c: Path)
    ensures IsPrefix(c, a) && IsPrefix(c, b)
  {
    if a == [] || b == [] || a[0] != b[0] then []
    else
      var c := CommonPrefix(a[1..], b[1..]);
      assert ([a[0]] + c)[1..] == c;
      [a[0]] + c
  }

  /** Every path both `a` and `b` start with is a prefix of `CommonPrefix(a, b)`: no deeper
      node is an ancestor of both. */
  lemma {:induction false} CommonPrefixLongest(u: Path, a: Path, b: Path)
    requires IsPrefix(u, a) && IsPrefix(u, b)
    ensures IsPrefix(u, CommonPrefix(a, b))
  {
    if u != [] {
      assert a[0] == u[0] == b[0];
      assert IsPrefix(u[1..], a[1..]) by { assert a[1..][..|u| - 1] == a[..|u|][1..]; }
      assert IsPrefix(u[1..], b[1..]) by { assert b[1..][..|u| - 1] == b[..|u|][1..]; }
      CommonPrefixLongest(u[1..], a[1..], b[1..]);
      assert u == [u[0]] + u[1..];
    }
  }

  /** The lowest common ancestor of a node and itself is that node. */
  lemma CommonPrefixSelf(a: Path)
    ensures CommonPrefix(a, a) == a
  {
    assert a[..|a|] == a;
    CommonPrefixLongest(a, a, a);
  }

  /** Two different ancestors at the same depth lie below the lowest common ancestor. */
  lemma BelowCommonPrefix(u: Path, v: Path, a: Path, b: Path)
    requires IsPrefix(u, a) && IsPrefix(v, b) && |u| == |v| && u != v
    requires |CommonPrefix(a, b)| <= |u|
    ensures |CommonPrefix(a, b)| < |u|
  {
    var c := CommonPrefix(a, b);
    if |c| == |u| {
      PrefixUnique(c, u, a);
      PrefixUnique(c, v, b);
    }
  }

  /** The lowest common ancestor of `x` at depth `dx` and `y` at depth `dy`: first the deeper
      one climbs until both are at the same depth, then both climb in lock-step until they
      meet. */
  method LowestCommon<T>(t: Raw<T>, x: NodeId, dx: int, y: NodeId, dy: int) returns (z: NodeId, dz: int)
    requires Valid(t) && Placed(t, x, dx) && Placed(t, y, dy) && dx >= 0 && dy >= 0
    ensures Placed(t, z, dz) && 0 <= dz <= dx && dz <= dy
    ensures PathOf(t, z) == CommonPrefix(PathOf(t, x), PathOf(t, y))
    ensures IsPrefix(PathOf(t, z), PathOf(t, x)) && IsPrefix(PathOf(t, z), PathOf(t, y))
    ensures x == y && dx == dy ==> z == x && dz == dx
  {
    ghost var shape := ShapeOf(t);
    PlacedDepth(t, x, dx);
    PlacedDepth(t, y, dy);
    ghost var px, py := PathOf(t, x), PathOf(t, y);
    ghost var lcp := CommonPrefix(px, py);
    assert px[..|px|] == px && py[..|py|] == py;
    var a, da, b, db := x, dx, y, dy;
    ghost var pa, pb := px, py;
    while da > db
      invariant ValidPath(shape, pa) && a == At(shape, pa).value && |pa| == da && IsPrefix(pa, px)
      invariant |lcp| <= da
      decreases da
    {
      LinkParent(t, pa);
      PrefixParent(pa, px);
      a, da, pa := t.nodes[a].parent.value, da - 1, Parent(pa);
    }
    while db > da
      invariant ValidPath(shape, pb) && b == At(shape, pb).value && |pb| == db && IsPrefix(pb, py)
      invariant da <= db && |lcp| <= da
      decreases db
    {
      LinkParent(t, pb);
      PrefixParent(pb, py);
      b, db, pb := t.nodes[b].parent.value, db - 1, Parent(pb);
    }
    while a != b
      invariant ValidPath(shape, pa) && a == At(shape, pa).value && |pa| == da && IsPrefix(pa, px)
      invariant ValidPath(shape, pb) && b == At(shape, pb).value && |pb| == db && IsPrefix(pb, py)
      invariant da == db && |lcp| <= da
      decreases da
    {
      BelowCommonPrefix(pa, pb, px, py);
      LinkParent(t, pa);
      LinkParent(t, pb);
      PrefixParent(pa, px);
      PrefixParent(pb, py);
      a, da, pa := t.nodes[a].parent.value, da - 1, Parent(pa);
      b, db, pb := t.nodes[b].parent.value, db - 1, Parent(pb);
    }
    if pa != pb {
      PathsDistinct(shape, pa, pb);
    }
    CommonPrefixLongest(pa, px, py);
    PrefixUnique(pa, lcp, lcp);
    z, dz := a, da;
    PathOfAt(t, pa);
    PlacedDepth(t, z, dz);
    if x == y {
      CommonPrefixSelf(px);
    }
  }

  /** An accessor of the raw tree `tree` (the source's `node_` and `depth_`). */
  class Accessor<T> {
    const tree: Raw<T>
    var node: NodeId
    var depth: int

    /** `depth` is the number of parent links from `node` up to the root, or -1 with `node`
        the root. */
    ghost predicate Valid()
      reads this
    {
      RawTree.Valid(tree) && node in tree.nodes
      && ((depth == -1 && node == tree.root) || depth == DepthOf(tree, node))
    }

    /** Accepted only when `Placed(t, n, d)` holds; the source aborts otherwise. */
    constructor (t: Raw<T>, n: NodeId, d: int)
      requires RawTree.Valid(t) && Placed(t, n, d)
      ensures Valid() && tree == t && node == n && depth == d
    {
      tree := t;
      node := n;
      depth := d;
      PlacedDepth(t, n, d);
    }

    /** At depth 0, which is at the root and not at the end. */
    method IsRoot() returns (r: bool)
      requires Valid()
      ensures r <==> depth == 0
      ensures r <==> depth != -1 && node == tree.root
    {
      r := depth == 0;
      RootPath(tree);
      if depth != -1 && node == tree.root {
        assert DepthOf(tree, node) == 0;
      }
      if depth == 0 {
        PathOfAt(tree, []);
      }
    }

    /** The depth of the node, -1 at the end. */
    method Depth() returns (r: int)
      requires Valid()
      ensures r == depth
      ensures r == -1 || r == DepthOf(tree, node)
    {
      r := depth;
    }

    /** Same node at the same depth. Between accessors of one tree that are not at the end
        that is exactly the same node, and an end accessor equals no other kind. */
    method Equals(other: Accessor<T>) returns (r: bool)
      requires Valid() && other.Valid() && other.tree == tree
      ensures r <==> node == other.node && depth == other.depth
      ensures depth != -1 && other.depth != -1 ==> (r <==> node == other.node)
      ensures (depth == -1) != (other.depth == -1) ==> !r
    {
      r := node == other.node && depth == other.depth;
    }

    /** The negation of `Equals`. */
    method NotEquals(other: Accessor<T>) returns (r: bool)
      requires Valid() && other.Valid() && other.tree == tree
      ensures r <==> node != other.node || depth != other.depth
      ensures depth != -1 && other.depth != -1 ==> (r <==> node != other.node)
    {
      var same := Equals(other);
      r := !same;
    }

    /** Moves to the parent. At the root this moves to the end (the node stays the root); at
        the end it does nothing. */
    method Up()
      requires Valid()
      modifies this
      ensures Valid()
      ensures old(depth) == -1 ==> node == old(node) && depth == -1
      ensures old(depth) == 0 ==> node == old(node) == tree.root && depth == -1
      ensures old(depth) > 0 ==> Some(node) == tree.nodes[old(node)].parent && depth == old(depth) - 1
    {
      if depth == -1 {
        return;
      }
      if depth == 0 {
        PlacedDepth(tree, node, depth);
        ClimbToRoot(tree, node, 0);
        depth := -1;
        return;
      }
      ghost var p := PathOf(tree, node);
      LinkParent(tree, p);
      node := tree.nodes[node].parent.value;
      depth := depth - 1;
      PathOfAt(tree, Parent(p));
    }

    /** Moves to the root, at depth 0, by climbing parent links until there are none. */
    method Root()
      requires Valid()
      modifies this
      ensures Valid() && node == tree.root && depth == 0
    {
      ghost var shape := ShapeOf(tree);
      ghost var p := PathOf(tree, node);
      LinkParent(tree, p);
      while tree.nodes[node].parent.Some?
        invariant ValidPath(shape, p) && node == At(shape, p).value && node in tree.nodes
        invariant tree.nodes[node].parent == if p == [] then None else Some(At(shape, Parent(p)).value)
        invariant p != [] ==> ValidPath(shape, Parent(p))
        decreases |p|
      {
        node := tree.nodes[node].parent.value;
        p := Parent(p);
        LinkParent(tree, p);
      }
      depth := 0;
      RootPath(tree);
    }

    /** Moves to the `wing` child and answers true when there is one; otherwise answers false
        and stays. From the end it moves to the root and answers true. */
    method Down(wing: Side) returns (moved: bool)
      requires Valid()
      modifies this
      ensures Valid()
      ensures old(depth) == -1 ==> moved && node == tree.root && depth == 0
      ensures old(depth) >= 0 && ChildLink(tree.nodes[old(node)], wing).Some? ==>
        moved && Some(node) == ChildLink(tree.nodes[old(node)], wing) && depth == old(depth) + 1
      ensures old(depth) >= 0 && ChildLink(tree.nodes[old(node)], wing).None? ==>
        !moved && node == old(node) && depth == old(depth)
    {
      if depth == -1 {
        depth := 0;
        RootPath(tree);
        return true;
      }
      ghost var p := PathOf(tree, node);
      LinkChild(tree, p, wing);
      var c := ChildLink(tree.nodes[node], wing);
      if c.None? {
        return false;
      }
      ParentSnoc(p, wing);
      PathOfAt(tree, p + [wing]);
      node := c.value;
      depth := depth + 1;
      return true;
    }

    /** The lowest common ancestor of this accessor and `other` (of the same tree); the end
        when either of them is the end. */
    method CommonAncestor(other: Accessor<T>) returns (r: Accessor<T>)
      requires Valid() && other.Valid() && other.tree == tree
      ensures fresh(r) && r.Valid() && r.tree == tree
      ensures depth == -1 || other.depth == -1 ==> r.depth == -1 && r.node == tree.root
      ensures depth >= 0 && other.depth >= 0 ==>
        r.depth >= 0 && PathOf(tree, r.node) == CommonPrefix(PathOf(tree, node), PathOf(tree, other.node))
        && r.depth <= depth && r.depth <= other.depth
        && IsPrefix(PathOf(tree, r.node), PathOf(tree, node))
        && IsPrefix(PathOf(tree, r.node), PathOf(tree, other.node))
    ensures other.node == node && other.depth == depth ==> r.node == node && r.depth == depth
    {
      RootPath(tree);
      if depth == -1 || other.depth == -1 {
        r := new Accessor(tree, tree.root, -1);
        return;
      }
      PlacedDepth(tree, node, depth);
      PlacedDepth(tree, other.node, other.depth);
      var z, dz := LowestCommon(tree, node, depth, other.node, other.depth);
      r := new Accessor(tree, z, dz);
    }
  }

  /** `down(wing)` then `up()` brings a non-end accessor back to where it was, when the
      `wing` child exists. */
  method DownThenUp<T>(a: Accessor<T>, wing: Side)
    requires a.Valid() && a.depth >= 0 && ChildLink(a.tree.nodes[a.node], wing).Some?
    modifies a
    ensures a.Valid() && a.node == old(a.node) && a.depth == old(a.depth)
  {
    ghost var p := PathOf(a.tree, a.node);
    LinkChild(a.tree, p, wing);
    ParentSnoc(p, wing);
    LinkParent(a.tree, p + [wing]);
    var moved := a.Down(wing);
    a.Up();
  }
}
