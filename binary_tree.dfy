/** Binary trees as values: child slots, paths from the root, the pre-order and in-order
    sequences for either wing, and where every subtree sits inside those sequences.
    The raw tree's node links and the treap are both read through this module. */
module BinaryTree {
  import opened Sides
  import opened Wrappers

  /** A path from the root: the child slots taken one after the other. */
  type Path = seq<Side>

  datatype Tree<X> = Nil | Node(left: Tree<X>, value: X, right: Tree<X>)

  /** The subtree in slot `s` (`child_ref<s>()`); the empty tree has only empty children. */
  function Child<X>(t: Tree<X>, s: Side): Tree<X>
  {
    match t
    case Nil => Nil
    case Node(l, _, r) => if s == Left then l else r
  }

  function Size<X>(t: Tree<X>): nat
  {
    match t
    case Nil => 0
    case Node(l, _, r) => Size(l) + 1 + Size(r)
  }

  /** The subtree reached by following `p` from the root (empty once `p` leaves the tree);
      defined on the last step, so that `At(t, p + [s]) == Child(At(t, p), s)` by definition. */
  function At<X>(t: Tree<X>, p: Path): Tree<X>
  {
    if p == [] then t else Child(At(t, Parent(p)), Last(p))
  }

  /** The path of the parent: `p` without its last step. */
  function Parent(p: Path): (q: Path)
    requires p != []
    ensures |q| == |p| - 1 && q + [Last(p)] == p
  {
    p[..|p| - 1]
  }

  function Last(p: Path): Side
    requires p != []
  {
    p[|p| - 1]
  }

  /** One step down from `q` along `s`: the parent of the new path is `q`. */
  lemma ParentSnoc(q: Path, s: Side)
    ensures Parent(q + [s]) == q && Last(q + [s]) == s
  {
    assert (q + [s])[..|q|] == q;
  }

  /** `p` addresses a node of `t`. */
  predicate ValidPath<X>(t: Tree<X>, p: Path)
  {
    At(t, p).Node?
  }

  /** `p` addresses a slot of `t`: the root, or a child slot (filled or empty) of a node. */
  predicate Slot<X>(t: Tree<X>, p: Path)
  {
    p == [] || ValidPath(t, Parent(p))
  }

  function Elems<X(==)>(t: Tree<X>): set<X>
  {
    match t
    case Nil => {}
    case Node(l, x, r) => Elems(l) + {x} + Elems(r)
  }

  /** No value occurs at two nodes: the tree's values can serve as node identities. */
  predicate Unique<X(==)>(t: Tree<X>)
  {
    match t
    case Nil => true
    case Node(l, x, r) =>
      x !in Elems(l) && x !in Elems(r) && Elems(l) !! Elems(r) && Unique(l) && Unique(r)
  }

  predicate Distinct<X(==)>(s: seq<X>)
  {
    forall i, j :: 0 <= i < j < |s| ==> s[i] != s[j]
  }

  /** Pre-order leaning toward `w`: the node, then its `w` subtree, then the other one. */
  function PreOrder<X>(t: Tree<X>, w: Side): (r: seq<X>)
    ensures |r| == Size(t)
  {
    match t
    case Nil => []
    case Node(_, x, _) => [x] + PreOrder(Child(t, w), w) + PreOrder(Child(t, Other(w)), w)
  }

  /** In-order leaning toward `w`: the `w` subtree, then the node, then the other subtree. */
  function InOrder<X>(t: Tree<X>, w: Side): (r: seq<X>)
    ensures |r| == Size(t)
  {
    match t
    case Nil => []
    case Node(_, x, _) => InOrder(Child(t, w), w) + [x] + InOrder(Child(t, Other(w)), w)
  }

  /** Where the block of child `s` starts inside `PreOrder(t, w)`: after the node itself,
      and after the `w` subtree when `s` is the other side. */
  function PreShift<X>(t: Tree<X>, s: Side, w: Side): nat
  {
    if s == w then 1 else 1 + Size(Child(t, w))
  }

  /** Where the block of child `s` starts inside `InOrder(t, w)`. */
  function InShift<X>(t: Tree<X>, s: Side, w: Side): nat
  {
    if s == w then 0 else Size(Child(t, w)) + 1
  }

  /** Index in `PreOrder(t, w)` at which the block of the subtree at `p` starts. */
  function PreOffset<X>(t: Tree<X>, p: Path, w: Side): nat
  {
    if p == [] then 0 else PreOffset(t, Parent(p), w) + PreShift(At(t, Parent(p)), Last(p), w)
  }

  /** Index in `InOrder(t, w)` at which the block of the subtree at `p` starts. */
  function InOffset<X>(t: Tree<X>, p: Path, w: Side): nat
  {
    if p == [] then 0 else InOffset(t, Parent(p), w) + InShift(At(t, Parent(p)), Last(p), w)
  }

  /** Index of the node at `p` in `InOrder(t, w)`: its `w` subtree comes first. */
  function InIndex<X>(t: Tree<X>, p: Path, w: Side): nat
  {
    InOffset(t, p, w) + Size(Child(At(t, p), w))
  }

  /** The element after `x` in `xs` (`None` after the last one, for a missing one and for `None`). */
  function Successor<X(==)>(xs: seq<X>, x: Option<X>): Option<X>
  {
    match x
    case None => None
    case Some(y) =>
      if |xs| < 2 then None
      else if xs[0] == y then Some(xs[1])
      else Successor(xs[1..], x)
  }

  /** The path of the node holding `x`. */
  function Locate<X(==)>(t: Tree<X>, x: X): (p: Path)
    requires x in Elems(t)
    ensures ValidPath(t, p) && At(t, p).value == x
  {
    match t
    case Node(l, y, r) =>
      if x == y then []
      else if x in Elems(l) then AtCons(t, Left, Locate(l, x)); [Left] + Locate(l, x)
      else AtCons(t, Right, Locate(r, x)); [Right] + Locate(r, x)
  }

  /** The path of the node at index `i` of `PreOrder(t, w)`. */
  function PrePathAt<X>(t: Tree<X>, w: Side, i: nat): (p: Path)
    requires i < Size(t)
    ensures ValidPath(t, p) && PreOffset(t, p, w) == i
    decreases t
  {
    if i == 0 then []
    else if i - 1 < Size(Child(t, w)) then
      var q := PrePathAt(Child(t, w), w, i - 1);
      AtCons(t, w, q); PreOffsetCons(t, w, q, w); [w] + q
    else
      var q := PrePathAt(Child(t, Other(w)), w, i - 1 - Size(Child(t, w)));
      AtCons(t, Other(w), q); PreOffsetCons(t, Other(w), q, w); [Other(w)] + q
  }

  /** The path of the node at index `i` of `InOrder(t, w)`. */
  function InPathAt<X>(t: Tree<X>, w: Side, i: nat): (p: Path)
    requires i < Size(t)
    ensures ValidPath(t, p) && InIndex(t, p, w) == i
    decreases t
  {
    if i < Size(Child(t, w)) then
      var q := InPathAt(Child(t, w), w, i);
      AtCons(t, w, q); InOffsetCons(t, w, q, w); [w] + q
    else if i == Size(Child(t, w)) then []
    else
      var q := InPathAt(Child(t, Other(w)), w, i - 1 - Size(Child(t, w)));
      AtCons(t, Other(w), q); InOffsetCons(t, Other(w), q, w); [Other(w)] + q
  }

  // ---------------------------------------------------------------------------------------
  // Sequences

  lemma SliceOfConcat<X>(a: seq<X>, b: seq<X>, i: nat, j: nat)
    requires i <= j <= |b|
    ensures (a + b)[|a| + i .. |a| + j] == b[i..j]
  {
    assert forall k :: 0 <= k < j - i ==> (a + b)[|a| + i .. |a| + j][k] == b[i..j][k];
  }

  lemma {:induction false} SuccessorAt<X>(xs: seq<X>, i: nat)
    requires Distinct(xs) && i < |xs|
    ensures Successor(xs, Some(xs[i])) == if i + 1 < |xs| then Some(xs[i + 1]) else None
  {
    if i > 0 {
      assert xs[0] != xs[i];
      assert xs[1..][i - 1] == xs[i];
      SuccessorAt(xs[1..], i - 1);
    }
  }

  lemma DistinctConcat<X>(a: seq<X>, b: seq<X>)
    requires Distinct(a) && Distinct(b)
    requires forall x :: x in a ==> x !in b
    ensures Distinct(a + b)
  {
    forall i, j | 0 <= i < j < |a + b| ensures (a + b)[i] != (a + b)[j] {
      if i < |a| && j >= |a| {
        assert (a + b)[i] in a && (a + b)[j] == b[j - |a|];
      }
    }
  }

  // ---------------------------------------------------------------------------------------
  // Paths

  /** `u` is an initial part of `p`: the path of an ancestor of the node at `p`, or of that
      node itself. */
  predicate IsPrefix(u: Path, p: Path)
  {
    |u| <= |p| && p[..|u|] == u
  }

  /** Two prefixes of the same path with the same length are the same path. */
  lemma PrefixUnique(u: Path, v: Path, p: Path)
    requires IsPrefix(u, p) && IsPrefix(v, p) && |u| == |v|
    ensures u == v
  {
  }

  /** Cutting the last step off an ancestor's path gives the next ancestor up; a path is a
      prefix of itself. */
  lemma PrefixParent(u: Path, p: Path)
    requires IsPrefix(u, p) && u != []
    ensures IsPrefix(Parent(u), p)
  {
    assert p[..|u| - 1] == p[..|u|][..|u| - 1];
  }

  /** A proper prefix of `p` is a prefix of its parent path. */
  lemma PrefixOfParent(u: Path, p: Path)
    requires IsPrefix(u, p) && |u| < |p|
    ensures IsPrefix(u, Parent(p))
  {
    assert Parent(p)[..|u|] == p[..|u|];
  }

  /** Every prefix of a path to a node leads to a node: its ancestors. */
  lemma {:induction false} PrefixValid<X>(t: Tree<X>, p: Path, j: nat)
    requires ValidPath(t, p) && j <= |p|
    ensures ValidPath(t, p[..j])
    decreases |p|
  {
    if j == |p| {
      assert p[..j] == p;
    } else {
      assert Parent(p)[..j] == p[..j];
      PrefixValid(t, Parent(p), j);
    }
  }

  /** Following a path that starts with `s` is following the rest of it from child `s`. */
  lemma {:induction false} AtCons<X>(t: Tree<X>, s: Side, q: Path)
    ensures At(t, [s] + q) == At(Child(t, s), q)
    decreases |q|
  {
    if q != [] {
      assert Parent([s] + q) == [s] + Parent(q);
      AtCons(t, s, Parent(q));
    }
  }

  /** The offsets of a path that starts with `s`, from the offsets inside child `s`. */
  lemma {:induction false} PreOffsetCons<X>(t: Tree<X>, s: Side, q: Path, w: Side)
    requires t.Node?
    ensures PreOffset(t, [s] + q, w) == PreShift(t, s, w) + PreOffset(Child(t, s), q, w)
    decreases |q|
  {
    if q != [] {
      assert Parent([s] + q) == [s] + Parent(q);
      PreOffsetCons(t, s, Parent(q), w);
      AtCons(t, s, Parent(q));
    }
  }

  lemma {:induction false} InOffsetCons<X>(t: Tree<X>, s: Side, q: Path, w: Side)
    requires t.Node?
    ensures InOffset(t, [s] + q, w) == InShift(t, s, w) + InOffset(Child(t, s), q, w)
    decreases |q|
  {
    if q != [] {
      assert Parent([s] + q) == [s] + Parent(q);
      InOffsetCons(t, s, Parent(q), w);
      AtCons(t, s, Parent(q));
    }
  }

  /** Every node below a valid path belongs to the tree, and so do the subtree's values. */
  lemma {:induction false} AtElems<X>(t: Tree<X>, p: Path)
    ensures Elems(At(t, p)) <= Elems(t)
    ensures Unique(t) ==> Unique(At(t, p))
    ensures ValidPath(t, p) ==> At(t, p).value in Elems(t)
    decreases |p|
  {
    if p != [] {
      AtElems(t, Parent(p));
    }
  }

  /** In a tree with unique values, `Locate` recovers the path of a node from its value. */
  lemma {:induction false} LocateAt<X>(t: Tree<X>, p: Path)
    requires Unique(t) && ValidPath(t, p)
    ensures At(t, p).value in Elems(t) && Locate(t, At(t, p).value) == p
    decreases |p|
  {
    AtElems(t, p);
    if p != [] {
      var c := Child(t, p[0]);
      assert p == [p[0]] + p[1..];
      AtCons(t, p[0], p[1..]);
      LocateAt(c, p[1..]);
      AtElems(c, p[1..]);
    }
  }

  // ---------------------------------------------------------------------------------------
  // Blocks: every subtree's traversal is a contiguous slice of the whole traversal

  /** Inside one node: the traversal of child `s` sits at `PreShift(t, s, w)`. */
  lemma PreChildBlock<X>(t: Tree<X>, s: Side, w: Side, i: nat)
    requires t.Node? && i < Size(Child(t, s))
    ensures PreShift(t, s, w) + i < Size(t)
    ensures PreOrder(t, w)[PreShift(t, s, w) + i] == PreOrder(Child(t, s), w)[i]
  {
    var a, b := PreOrder(Child(t, w), w), PreOrder(Child(t, Other(w)), w);
    assert PreOrder(t, w) == [t.value] + a + b;
    if s != w {
      assert s == Other(w);
    }
  }

  /** Inside one node: the traversal of child `s` sits at `InShift(t, s, w)`. */
  lemma InChildBlock<X>(t: Tree<X>, s: Side, w: Side, i: nat)
    requires t.Node? && i < Size(Child(t, s))
    ensures InShift(t, s, w) + i < Size(t)
    ensures InOrder(t, w)[InShift(t, s, w) + i] == InOrder(Child(t, s), w)[i]
  {
    var a, b := InOrder(Child(t, w), w), InOrder(Child(t, Other(w)), w);
    assert InOrder(t, w) == a + [t.value] + b;
    if s != w {
      assert s == Other(w);
    }
  }

  /** Only a node has a node below it. */
  lemma {:induction false} NodeAbove<X>(t: Tree<X>, p: Path)
    requires At(t, p).Node?
    ensures t.Node?
    decreases |p|
  {
    if p != [] {
      NodeAbove(t, Parent(p));
    }
  }

  /** The pre-order offset of a path into child `s`, from the offset inside that child. */
  lemma PreOffsetInto<X>(t: Tree<X>, s: Side, q: Path, w: Side)
    requires ValidPath(t, [s] + q)
    ensures t.Node? && ValidPath(Child(t, s), q) && PreOffset(Child(t, s), q, w) < Size(Child(t, s))
    ensures PreOffset(t, [s] + q, w) == PreShift(t, s, w) + PreOffset(Child(t, s), q, w)
  {
    AtCons(t, s, q);
    NodeAbove(t, [s] + q);
    PreOffsetCons(t, s, q, w);
    PreIndexed(Child(t, s), q, w);
  }

  /** The in-order index of a path into child `s`, from the index inside that child. */
  lemma InIndexInto<X>(t: Tree<X>, s: Side, q: Path, w: Side)
    requires ValidPath(t, [s] + q)
    ensures t.Node? && ValidPath(Child(t, s), q) && InIndex(Child(t, s), q, w) < Size(Child(t, s))
    ensures InIndex(t, [s] + q, w) == InShift(t, s, w) + InIndex(Child(t, s), q, w)
  {
    AtCons(t, s, q);
    NodeAbove(t, [s] + q);
    InOffsetCons(t, s, q, w);
    InIndexed(Child(t, s), q, w);
  }

  /** Different nodes sit at different pre-order offsets. */
  lemma {:induction false} PreOffsetInjective<X>(t: Tree<X>, p: Path, q: Path, w: Side)
    requires ValidPath(t, p) && ValidPath(t, q) && PreOffset(t, p, w) == PreOffset(t, q, w)
    ensures p == q
    decreases |p|
  {
    if p != [] {
      assert p == [p[0]] + p[1..];
      PreOffsetInto(t, p[0], p[1..], w);
    }
    if q != [] {
      assert q == [q[0]] + q[1..];
      PreOffsetInto(t, q[0], q[1..], w);
    }
    if p != [] && q != [] && p[0] == q[0] {
      PreOffsetInjective(Child(t, p[0]), p[1..], q[1..], w);
    }
  }

  /** Different nodes sit at different in-order indices. */
  lemma {:induction false} InIndexInjective<X>(t: Tree<X>, p: Path, q: Path, w: Side)
    requires ValidPath(t, p) && ValidPath(t, q) && InIndex(t, p, w) == InIndex(t, q, w)
    ensures p == q
    decreases |p|
  {
    if p != [] {
      assert p == [p[0]] + p[1..];
      InIndexInto(t, p[0], p[1..], w);
    }
    if q != [] {
      assert q == [q[0]] + q[1..];
      InIndexInto(t, q[0], q[1..], w);
    }
    if p != [] && q != [] && p[0] == q[0] {
      InIndexInjective(Child(t, p[0]), p[1..], q[1..], w);
    }
  }

  /** Two index translations compose: `whole[a + j]` is `mid[j]`, which is `sub[k]`. */
  lemma IndexChain<X>(whole: seq<X>, mid: seq<X>, sub: seq<X>, a: nat, j: nat, k: nat, o: nat)
    requires j < |mid| && k < |sub| && a + j < |whole| && o == a + j
    requires whole[a + j] == mid[j] && mid[j] == sub[k]
    ensures o < |whole| && whole[o] == sub[k]
  {
  }

  /** The pre-order sequence of the subtree at `p` lies inside the whole pre-order sequence,
      starting at `PreOffset(t, p, w)`; stated one index `k` at a time. */
  lemma {:induction false} PreBlock<X>(t: Tree<X>, p: Path, w: Side, k: nat)
    requires k < Size(At(t, p))
    ensures PreOffset(t, p, w) + k < Size(t)
    ensures PreOrder(t, w)[PreOffset(t, p, w) + k] == PreOrder(At(t, p), w)[k]
    decreases |p|
  {
    if p == [] {
      assert At(t, p) == t && PreOffset(t, p, w) + k == k;
    } else {
      var s, q := p[0], p[1..];
      assert p == [s] + q;
      AtCons(t, s, q);
      NodeAbove(t, p);
      var c := Child(t, s);
      PreOffsetCons(t, s, q, w);
      PreBlock(c, q, w, k);
      PreChildBlock(t, s, w, PreOffset(c, q, w) + k);
      IndexChain(PreOrder(t, w), PreOrder(c, w), PreOrder(At(c, q), w),
                 PreShift(t, s, w), PreOffset(c, q, w) + k, k, PreOffset(t, p, w) + k);
    }
  }

  /** The in-order counterpart of `PreBlock`. */
  lemma {:induction false} InBlock<X>(t: Tree<X>, p: Path, w: Side, k: nat)
    requires k < Size(At(t, p))
    ensures InOffset(t, p, w) + k < Size(t)
    ensures InOrder(t, w)[InOffset(t, p, w) + k] == InOrder(At(t, p), w)[k]
    decreases |p|
  {
    if p == [] {
      assert At(t, p) == t && InOffset(t, p, w) + k == k;
    } else {
      var s, q := p[0], p[1..];
      assert p == [s] + q;
      AtCons(t, s, q);
      NodeAbove(t, p);
      var c := Child(t, s);
      InOffsetCons(t, s, q, w);
      InBlock(c, q, w, k);
      InChildBlock(t, s, w, InOffset(c, q, w) + k);
      IndexChain(InOrder(t, w), InOrder(c, w), InOrder(At(c, q), w),
                 InShift(t, s, w), InOffset(c, q, w) + k, k, InOffset(t, p, w) + k);
    }
  }

  /** The block of the (possibly empty) subtree in slot `p` ends inside the pre-order sequence. */
  lemma {:induction false} PreBound<X>(t: Tree<X>, p: Path, w: Side)
    requires Slot(t, p)
    ensures PreOffset(t, p, w) + Size(At(t, p)) <= Size(t)
    decreases |p|
  {
    if p != [] {
      PreBound(t, Parent(p), w);
      if At(t, Parent(p)).Node? && Last(p) != w {
        assert Last(p) == Other(w);
      }
    }
  }

  /** The block of the (possibly empty) subtree in slot `p` ends inside the in-order sequence. */
  lemma {:induction false} InBound<X>(t: Tree<X>, p: Path, w: Side)
    requires Slot(t, p)
    ensures InOffset(t, p, w) + Size(At(t, p)) <= Size(t)
    decreases |p|
  {
    if p != [] {
      InBound(t, Parent(p), w);
      if At(t, Parent(p)).Node? && Last(p) != w {
        assert Last(p) == Other(w);
      }
    }
  }

  /** The node at `p` sits at index `PreOffset(t, p, w)` of the pre-order sequence. */
  lemma PreIndexed<X>(t: Tree<X>, p: Path, w: Side)
    requires ValidPath(t, p)
    ensures PreOffset(t, p, w) < Size(t)
    ensures PreOrder(t, w)[PreOffset(t, p, w)] == At(t, p).value
  {
    PreBlock(t, p, w, 0);
  }

  /** The node at `p` sits at index `InIndex(t, p, w)` of the in-order sequence. */
  lemma InIndexed<X>(t: Tree<X>, p: Path, w: Side)
    requires ValidPath(t, p)
    ensures InIndex(t, p, w) < Size(t)
    ensures InOrder(t, w)[InIndex(t, p, w)] == At(t, p).value
  {
    var sub := At(t, p);
    InNode(sub, w);
    InBlock(t, p, w, Size(Child(sub, w)));
  }

  /** A node comes right after its `w` subtree in the in-order sequence. */
  lemma InNode<X>(t: Tree<X>, w: Side)
    requires t.Node?
    ensures Size(Child(t, w)) < Size(t) && InOrder(t, w)[Size(Child(t, w))] == t.value
  {
    assert InOrder(t, w) == InOrder(Child(t, w), w) + [t.value] + InOrder(Child(t, Other(w)), w);
  }

  // ---------------------------------------------------------------------------------------
  // Membership and distinctness of the traversals

  /** A node's values split into its `w` subtree's, its own and its other subtree's. */
  lemma NodeParts<X>(t: Tree<X>, w: Side)
    requires t.Node?
    ensures Elems(t) == Elems(Child(t, w)) + {t.value} + Elems(Child(t, Other(w)))
    ensures Unique(t) ==>
      Unique(Child(t, w)) && Unique(Child(t, Other(w))) && t.value !in Elems(Child(t, w))
      && t.value !in Elems(Child(t, Other(w))) && Elems(Child(t, w)) !! Elems(Child(t, Other(w)))
  {
    if w == Left {} else {}
  }

  /** The pre-order sequence holds exactly the tree's values. */
  lemma {:induction false} PreOrderElems<X>(t: Tree<X>, w: Side, x: X)
    ensures x in PreOrder(t, w) <==> x in Elems(t)
  {
    if t.Node? {
      var a, b := Child(t, w), Child(t, Other(w));
      PreOrderElems(a, w, x);
      PreOrderElems(b, w, x);
      NodeParts(t, w);
      assert PreOrder(t, w) == [t.value] + PreOrder(a, w) + PreOrder(b, w);
    }
  }

  /** With unique values, no node is visited twice in pre-order. */
  lemma {:induction false} PreOrderDistinct<X>(t: Tree<X>, w: Side)
    requires Unique(t)
    ensures Distinct(PreOrder(t, w))
  {
    if t.Node? {
      var a, b := Child(t, w), Child(t, Other(w));
      NodeParts(t, w);
      PreOrderDistinct(a, w);
      PreOrderDistinct(b, w);
      var pa, pb := PreOrder(a, w), PreOrder(b, w);
      PreOrderElems(a, w, t.value);
      DistinctConcat([t.value], pa);
      forall x | x in [t.value] + pa ensures x !in pb {
        PreOrderElems(a, w, x);
        PreOrderElems(b, w, x);
      }
      DistinctConcat([t.value] + pa, pb);
    }
  }

  /** The in-order sequence holds exactly the tree's values. */
  lemma {:induction false} InOrderElems<X>(t: Tree<X>, w: Side, x: X)
    ensures x in InOrder(t, w) <==> x in Elems(t)
  {
    if t.Node? {
      var a, b := Child(t, w), Child(t, Other(w));
      InOrderElems(a, w, x);
      InOrderElems(b, w, x);
      NodeParts(t, w);
      assert InOrder(t, w) == InOrder(a, w) + [t.value] + InOrder(b, w);
    }
  }

  /** With unique values, no node is visited twice in order. */
  lemma {:induction false} InOrderDistinct<X>(t: Tree<X>, w: Side)
    requires Unique(t)
    ensures Distinct(InOrder(t, w))
  {
    if t.Node? {
      var a, b := Child(t, w), Child(t, Other(w));
      NodeParts(t, w);
      InOrderDistinct(a, w);
      InOrderDistinct(b, w);
      var ia, ib := InOrder(a, w), InOrder(b, w);
      InOrderElems(a, w, t.value);
      DistinctConcat(ia, [t.value]);
      forall x | x in ia + [t.value] ensures x !in ib {
        InOrderElems(a, w, x);
        InOrderElems(b, w, x);
      }
      DistinctConcat(ia + [t.value], ib);
    }
  }

  // ---------------------------------------------------------------------------------------
  // Which node comes next, read off the offsets

  /** In a tree with unique values, different paths hold different values. */
  lemma PathsDistinct<X>(t: Tree<X>, p: Path, q: Path)
    requires Unique(t) && ValidPath(t, p) && ValidPath(t, q) && p != q
    ensures At(t, p).value != At(t, q).value
  {
    LocateAt(t, p);
    LocateAt(t, q);
  }

  /** Climbing from child slot `pc` to its parent in pre-order: coming up from the `wing`
      side, the other child's block starts where the slot's block ends; coming up from the
      other side, or from the `wing` side with no other child, the parent's block ends where
      the slot's block ends. */
  lemma PreClimb<X>(t: Tree<X>, pc: Path, w: Side)
    requires pc != [] && ValidPath(t, Parent(pc))
    ensures Last(pc) == w ==>
      PreOffset(t, Parent(pc) + [Other(w)], w) == PreOffset(t, pc, w) + Size(At(t, pc))
    ensures Last(pc) != w || Child(At(t, Parent(pc)), Other(w)).Nil? ==>
      PreOffset(t, Parent(pc), w) + Size(At(t, Parent(pc))) == PreOffset(t, pc, w) + Size(At(t, pc))
  {
    ParentSnoc(Parent(pc), Other(w));
    if Last(pc) != w {
      assert Last(pc) == Other(w);
    }
  }

  /** Climbing from child slot `pc` to its parent in order: coming up from the `wing` side,
      the parent comes right after the slot's block; coming up from the other side, the
      parent's block ends where the slot's block ends. */
  lemma InClimb<X>(t: Tree<X>, pc: Path, w: Side)
    requires pc != [] && ValidPath(t, Parent(pc))
    ensures Last(pc) == w ==> InIndex(t, Parent(pc), w) == InOffset(t, pc, w) + Size(At(t, pc))
    ensures Last(pc) != w ==>
      InOffset(t, Parent(pc), w) + Size(At(t, Parent(pc))) == InOffset(t, pc, w) + Size(At(t, pc))
  {
    if Last(pc) != w {
      assert Last(pc) == Other(w);
    }
  }

  /** The node at `q` follows the node at `p` in pre-order when its index is one more. */
  lemma PreSuccessor<X>(t: Tree<X>, w: Side, p: Path, q: Path)
    requires Unique(t) && ValidPath(t, p) && ValidPath(t, q)
    requires PreOffset(t, q, w) == PreOffset(t, p, w) + 1
    ensures Successor(PreOrder(t, w), Some(At(t, p).value)) == Some(At(t, q).value)
  {
    PreIndexed(t, p, w);
    PreIndexed(t, q, w);
    PreOrderDistinct(t, w);
    SuccessorAt(PreOrder(t, w), PreOffset(t, p, w));
  }

  /** The node at `p` is the last one in pre-order when its index is the last one. */
  lemma PreSuccessorLast<X>(t: Tree<X>, w: Side, p: Path)
    requires Unique(t) && ValidPath(t, p)
    requires PreOffset(t, p, w) + 1 == Size(t)
    ensures Successor(PreOrder(t, w), Some(At(t, p).value)) == None
  {
    PreIndexed(t, p, w);
    PreOrderDistinct(t, w);
    SuccessorAt(PreOrder(t, w), PreOffset(t, p, w));
  }

  /** The node at `q` follows the node at `p` in order when its index is one more. */
  lemma InSuccessor<X>(t: Tree<X>, w: Side, p: Path, q: Path)
    requires Unique(t) && ValidPath(t, p) && ValidPath(t, q)
    requires InIndex(t, q, w) == InIndex(t, p, w) + 1
    ensures Successor(InOrder(t, w), Some(At(t, p).value)) == Some(At(t, q).value)
  {
    InIndexed(t, p, w);
    InIndexed(t, q, w);
    InOrderDistinct(t, w);
    SuccessorAt(InOrder(t, w), InIndex(t, p, w));
  }

  /** The node at `p` is the last one in order when its index is the last one. */
  lemma InSuccessorLast<X>(t: Tree<X>, w: Side, p: Path)
    requires Unique(t) && ValidPath(t, p)
    requires InIndex(t, p, w) + 1 == Size(t)
    ensures Successor(InOrder(t, w), Some(At(t, p).value)) == None
  {
    InIndexed(t, p, w);
    InOrderDistinct(t, w);
    SuccessorAt(InOrder(t, w), InIndex(t, p, w));
  }
}
