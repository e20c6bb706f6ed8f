/** The raw tree: every node holds a value, owns up to two children and points back at its
    parent. Nodes live in an arena keyed by node identity; the pointers become optional
    identities. A valid arena is one whose links describe a finite binary tree: the ghost
    `shape` of that tree (a `Tree` of identities) is what the traversals are read from. */
module RawTree {
  import opened Sides
  import opened Wrappers
  import opened BinaryTree

  /** The identity of a node: its address in the arena. */
  type NodeId = nat

  /** One `raw_tree` node: its value, its two child links and its parent link. */
  datatype RawNode<T> = RawNode(value: T, left: Option<NodeId>, right: Option<NodeId>, parent: Option<NodeId>)

  /** An arena of nodes and the identity of the root, the one node without a parent. */
  datatype Raw<T> = Raw(nodes: map<NodeId, RawNode<T>>, root: NodeId)

  /** The child link on side `s` (`child_ref<s>()`). */
  function ChildLink<T>(n: RawNode<T>, s: Side): Option<NodeId>
  {
    if s == Left then n.left else n.right
  }

  /** The identity at the top of a subtree of the shape, `None` for the empty subtree. */
  function RootOf(s: Tree<NodeId>): Option<NodeId>
  {
    if s.Nil? then None else Some(s.value)
  }

  /** The links stored for the node at `p` agree with the shape: its children are the roots
      of its child subtrees and its parent is the node one step up (none for the root). */
  predicate LinkedAt<T>(nodes: map<NodeId, RawNode<T>>, shape: Tree<NodeId>, p: Path)
    requires ValidPath(shape, p)
  {
    var id := At(shape, p).value;
    id in nodes
    && nodes[id].left == RootOf(Child(At(shape, p), Left))
    && nodes[id].right == RootOf(Child(At(shape, p), Right))
    && nodes[id].parent == (if p == [] then None else RootOf(At(shape, Parent(p))))
  }

  /** `shape` is the tree that the arena `t` links up: rooted at `t.root`, holding every node
      of the arena exactly once, with every node's links agreeing with it. */
  ghost predicate Shapes<T>(t: Raw<T>, shape: Tree<NodeId>)
  {
    shape.Node? && shape.value == t.root && Unique(shape) && Elems(shape) == t.nodes.Keys
    && forall p :: ValidPath(shape, p) ==> LinkedAt(t.nodes, shape, p)
  }

  /** The arena's links form one finite binary tree (no cycles, no shared children). */
  ghost predicate Valid<T>(t: Raw<T>)
  {
    exists shape :: Shapes(t, shape)
  }

  ghost function ShapeOf<T>(t: Raw<T>): (shape: Tree<NodeId>)
    requires Valid(t)
    ensures Shapes(t, shape)
  {
    var shape :| Shapes(t, shape); shape
  }

  /** The path from the root to node `n`. */
  ghost function PathOf<T>(t: Raw<T>, n: NodeId): (p: Path)
    requires Valid(t) && n in t.nodes
    ensures ValidPath(ShapeOf(t), p) && At(ShapeOf(t), p).value == n
  {
    Locate(ShapeOf(t), n)
  }

  /** The number of parent links from `n` up to the root. */
  ghost function DepthOf<T>(t: Raw<T>, n: NodeId): nat
    requires Valid(t) && n in t.nodes
  {
    |PathOf(t, n)|
  }

  /** The node reached from `n` by following `k` parent links; `None` when the climb passes
      the root. */
  function Climb<T>(t: Raw<T>, n: NodeId, k: nat): Option<NodeId>
    decreases k
  {
    if k == 0 then Some(n)
    else if n !in t.nodes then None
    else match t.nodes[n].parent
      case None => None
      case Some(q) => Climb(t, q, k - 1)
  }

  /** The node sequence of a traversal of the whole tree. */
  ghost function Traversal<T>(t: Raw<T>, order: Order, wing: Side): (r: seq<NodeId>)
    requires Valid(t)
    ensures |r| == Size(ShapeOf(t))
  {
    if order == Pre then PreOrder(ShapeOf(t), wing) else InOrder(ShapeOf(t), wing)
  }

  // ---------------------------------------------------------------------------------------
  // Reading the links through the shape

  /** Every node of the shape is a node of the arena, and its path is the one it is found at. */
  lemma PathOfAt<T>(t: Raw<T>, p: Path)
    requires Valid(t) && ValidPath(ShapeOf(t), p)
    ensures At(ShapeOf(t), p).value in t.nodes && PathOf(t, At(ShapeOf(t), p).value) == p
  {
    LocateAt(ShapeOf(t), p);
  }

  /** The root is the node at the empty path. */
  lemma RootPath<T>(t: Raw<T>)
    requires Valid(t)
    ensures t.root in t.nodes && PathOf(t, t.root) == []
  {
    PathOfAt(t, []);
  }

  /** The child link on side `s` of the node at `p` leads to the node at `p + [s]`. */
  lemma LinkChild<T>(t: Raw<T>, p: Path, s: Side)
    requires Valid(t) && ValidPath(ShapeOf(t), p)
    ensures At(ShapeOf(t), p).value in t.nodes
    ensures ChildLink(t.nodes[At(ShapeOf(t), p).value], s) == RootOf(At(ShapeOf(t), p + [s]))
  {
    assert LinkedAt(t.nodes, ShapeOf(t), p);
    ParentSnoc(p, s);
  }

  /** The parent link of the node at `p` leads to the node at `Parent(p)`; only the root,
      at the empty path, has none. */
  lemma LinkParent<T>(t: Raw<T>, p: Path)
    requires Valid(t) && ValidPath(ShapeOf(t), p)
    ensures At(ShapeOf(t), p).value in t.nodes
    ensures t.nodes[At(ShapeOf(t), p).value].parent
            == if p == [] then None else Some(At(ShapeOf(t), Parent(p)).value)
    ensures p != [] ==> ValidPath(ShapeOf(t), Parent(p))
  {
    assert LinkedAt(t.nodes, ShapeOf(t), p);
  }

  /** Climbing from the node at `p` as many parent links as `p` is longer than its prefix
      `u` reaches the node at `u`: the ancestors are the nodes at the prefixes. */
  lemma {:induction false} ClimbPath<T>(t: Raw<T>, p: Path, u: Path)
    requires Valid(t) && ValidPath(ShapeOf(t), p) && IsPrefix(u, p)
    ensures ValidPath(ShapeOf(t), u)
    ensures Climb(t, At(ShapeOf(t), p).value, |p| - |u|) == Some(At(ShapeOf(t), u).value)
    decreases |p|
  {
    if |u| == |p| {
      assert u == p;
    } else {
      LinkParent(t, p);
      PrefixOfParent(u, p);
      ClimbPath(t, Parent(p), u);
    }
  }

  /** Climbing more parent links than the depth passes the root. */
  lemma {:induction false} ClimbPastRoot<T>(t: Raw<T>, p: Path, k: nat)
    requires Valid(t) && ValidPath(ShapeOf(t), p) && k > |p|
    ensures Climb(t, At(ShapeOf(t), p).value, k) == None
    decreases |p|
  {
    LinkParent(t, p);
    if p != [] {
      ClimbPastRoot(t, Parent(p), k - 1);
    }
  }

  /** Climbing exactly `DepthOf(t, n)` parent links from `n`, and no other number, reaches the
      root. */
  lemma ClimbToRoot<T>(t: Raw<T>, n: NodeId, k: nat)
    requires Valid(t) && n in t.nodes
    ensures Climb(t, n, k) == Some(t.root) <==> k == DepthOf(t, n)
  {
    var p := PathOf(t, n);
    RootPath(t);
    if k > |p| {
      ClimbPastRoot(t, p, k);
    } else {
      var u := p[..|p| - k];
      ClimbPath(t, p, u);
      if At(ShapeOf(t), u).value == t.root {
        PathOfAt(t, u);
      }
    }
  }
}
