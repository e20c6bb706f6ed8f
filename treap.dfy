/** The treap behind the `tree` container, as values: two caller-supplied predicates decide
    where a value goes. `isTall(a, b)` says `a` belongs above `b` (heap order); `isLeft(a, b)`
    says `a` belongs to the left of `b` (key order). Merges and splits are written to meet
    the container's documented contract. */
module Treap {
  import opened Sides
  import opened Wrappers
  import opened BinaryTree

  /** The default predicate: no value is ever taller, or further left, than another. */
  function Indifferent<T>(a: T, b: T): (r: bool)
    ensures !r
  {
    false
  }

  /** Irreflexive, transitive, and negatively transitive (if `a` precedes `c`, then any `b`
      follows `a` or precedes `c`): what the container demands of both predicates. */
  ghost predicate StrictWeakOrder<T(!new)>(f: (T, T) -> bool)
  {
    (forall a :: !f(a, a))
    && (forall a, b, c :: f(a, b) && f(b, c) ==> f(a, c))
    && (forall a, b, c :: f(a, c) ==> f(a, b) || f(b, c))
  }

  lemma IndifferentStrictWeakOrder<T(!new)>()
    ensures StrictWeakOrder<T>(Indifferent)
  {
  }

  /** Heap order: no value is taller than the value at the top of any subtree holding it. */
  predicate HeapOrdered<T(==)>(t: Tree<T>, isTall: (T, T) -> bool)
  {
    match t
    case Nil => true
    case Node(l, x, r) =>
      (forall y :: y in Elems(l) ==> !isTall(y, x)) && (forall y :: y in Elems(r) ==> !isTall(y, x))
      && HeapOrdered(l, isTall) && HeapOrdered(r, isTall)
  }

  /** Key order: nothing in a left subtree belongs right of its node, nothing in a right
      subtree belongs left of it. */
  predicate Ordered<T(==)>(t: Tree<T>, isLeft: (T, T) -> bool)
  {
    match t
    case Nil => true
    case Node(l, x, r) =>
      (forall y :: y in Elems(l) ==> !isLeft(x, y)) && (forall y :: y in Elems(r) ==> !isLeft(y, x))
      && Ordered(l, isLeft) && Ordered(r, isLeft)
  }

  /** No element of `s` belongs left of an earlier one. */
  predicate Sorted<T>(s: seq<T>, isLeft: (T, T) -> bool)
  {
    forall i, j :: 0 <= i < j < |s| ==> !isLeft(s[j], s[i])
  }

  /** Everything in `a` may stay left of everything in `b`. */
  predicate Separated<T(==)>(a: set<T>, b: set<T>, isLeft: (T, T) -> bool)
  {
    forall y, z :: y in a && z in b ==> !isLeft(z, y)
  }

  /** Splits `t` around `v`: values that `v` does not belong left of go to the first tree,
      the others to the second; the links between them are kept. */
  function Split<T(==)>(t: Tree<T>, v: T, isLeft: (T, T) -> bool): (r: (Tree<T>, Tree<T>))
    ensures Elems(r.0) + Elems(r.1) == Elems(t)
  {
    match t
    case Nil => (Nil, Nil)
    case Node(l, x, r) =>
      if isLeft(v, x) then
        var (a, b) := Split(l, v, isLeft); (a, Node(b, x, r))
      else
        var (a, b) := Split(r, v, isLeft); (Node(l, x, a), b)
  }

  /** Merges the single value `v` into `t`: it goes down the search path while the nodes are
      at least as tall as it, left when it belongs left of the node and right otherwise;
      where it is taller than the node, it takes the node's place and the subtree there is
      split around it. */
  function MergeIn<T(==)>(t: Tree<T>, v: T, isTall: (T, T) -> bool, isLeft: (T, T) -> bool): (r: Tree<T>)
    ensures Elems(r) == Elems(t) + {v}
  {
    match t
    case Nil => Node(Nil, v, Nil)
    case Node(l, x, r) =>
      if isTall(v, x) then
        var (a, b) := Split(t, v, isLeft); Node(a, v, b)
      else if isLeft(v, x) then Node(MergeIn(l, v, isTall, isLeft), x, r)
      else Node(l, x, MergeIn(r, v, isTall, isLeft))
  }

  /** The path at which `MergeIn` places `v`. */
  function InsertedPath<T>(t: Tree<T>, v: T, isTall: (T, T) -> bool, isLeft: (T, T) -> bool): Path
  {
    match t
    case Nil => []
    case Node(l, x, r) =>
      if isTall(v, x) then []
      else if isLeft(v, x) then [Left] + InsertedPath(l, v, isTall, isLeft)
      else [Right] + InsertedPath(r, v, isTall, isLeft)
  }

  /** Merges two trees whose values are in order, `a` entirely before `b`: the taller of the
      two tops stays on top, the left one when neither is taller. */
  function Join<T(==)>(a: Tree<T>, b: Tree<T>, isTall: (T, T) -> bool): (r: Tree<T>)
    ensures Elems(r) == Elems(a) + Elems(b)
    decreases Size(a) + Size(b)
  {
    if a.Nil? then b
    else if b.Nil? then a
    else if isTall(b.value, a.value) then Node(Join(a, b.left, isTall), b.value, b.right)
    else Node(a.left, a.value, Join(a.right, b, isTall))
  }

  /** `t` with the subtree in slot `p` replaced by `u`: the rewrite of the slot reference. */
  function ReplaceAt<X>(t: Tree<X>, p: Path, u: Tree<X>): Tree<X>
    decreases p
  {
    if p == [] then u
    else match t
      case Nil => Nil
      case Node(l, x, r) =>
        if p[0] == Left then Node(ReplaceAt(l, p[1..], u), x, r)
        else Node(l, x, ReplaceAt(r, p[1..], u))
  }

  /** Erasing the node at `p`: its slot receives the merge of its two children. */
  function EraseSlot<T(==)>(t: Tree<T>, p: Path, isTall: (T, T) -> bool): Tree<T>
    requires ValidPath(t, p)
  {
    var n := At(t, p);
    ReplaceAt(t, p, Join(n.left, n.right, isTall))
  }

  /** Regrouping a concatenation of four sequences. */
  lemma Regroup<X>(a: seq<X>, b: seq<X>, c: seq<X>, d: seq<X>)
    ensures a + (b + c + d) == a + b + c + d
    ensures a + b + c + d == a + b + (c + d)
    ensures a + (b + c) + d == a + b + c + d
  {
  }

  /** The two in-order traversals of a node, spelled out. */
  lemma InOrderNode<X>(l: Tree<X>, x: X, r: Tree<X>)
    ensures InOrder(Node(l, x, r), Left) == InOrder(l, Left) + [x] + InOrder(r, Left)
    ensures InOrder(Node(l, x, r), Right) == InOrder(r, Right) + [x] + InOrder(l, Right)
  {
  }

  /** Splitting keeps the in-order sequence: the first tree's, then the second's. */
  lemma {:induction false} SplitInOrder<T>(t: Tree<T>, v: T, isLeft: (T, T) -> bool)
    ensures InOrder(Split(t, v, isLeft).0, Left) + InOrder(Split(t, v, isLeft).1, Left) == InOrder(t, Left)
  {
    if t.Node? {
      var l, x, r := t.left, t.value, t.right;
      var sl, sr := InOrder(l, Left), InOrder(r, Left);
      assert InOrder(t, Left) == sl + [x] + sr by { InOrderNode(l, x, r); }
      if isLeft(v, x) {
        var ab := Split(l, v, isLeft);
        SplitInOrder(l, v, isLeft);
        var sa, sb := InOrder(ab.0, Left), InOrder(ab.1, Left);
        assert InOrder(Node(ab.1, x, r), Left) == sb + [x] + sr by { InOrderNode(ab.1, x, r); }
        Regroup(sa, sb, [x], sr);
      } else {
        var ab := Split(r, v, isLeft);
        SplitInOrder(r, v, isLeft);
        var sa, sb := InOrder(ab.0, Left), InOrder(ab.1, Left);
        assert InOrder(Node(l, x, ab.0), Left) == sl + [x] + sa by { InOrderNode(l, x, ab.0); }
        Regroup(sl, [x], sa, sb);
      }
    }
  }

  /** Merging `v` in puts it between the two halves of the split around it: after every value
      it does not belong left of, before every value it belongs left of. */
  lemma {:induction false} MergeInInOrder<T>(t: Tree<T>, v: T, isTall: (T, T) -> bool, isLeft: (T, T) -> bool)
    ensures InOrder(MergeIn(t, v, isTall, isLeft), Left)
            == InOrder(Split(t, v, isLeft).0, Left) + [v] + InOrder(Split(t, v, isLeft).1, Left)
  {
    if t.Node? {
      var l, x, r := t.left, t.value, t.right;
      var sl, sr := InOrder(l, Left), InOrder(r, Left);
      if isTall(v, x) {
        var ab := Split(t, v, isLeft);
        InOrderNode(ab.0, v, ab.1);
      } else if isLeft(v, x) {
        var m := MergeIn(l, v, isTall, isLeft);
        var ab := Split(l, v, isLeft);
        MergeInInOrder(l, v, isTall, isLeft);
        var sa, sb := InOrder(ab.0, Left), InOrder(ab.1, Left);
        assert InOrder(Node(m, x, r), Left) == InOrder(m, Left) + [x] + sr by { InOrderNode(m, x, r); }
        assert InOrder(Node(ab.1, x, r), Left) == sb + [x] + sr by { InOrderNode(ab.1, x, r); }
        Regroup(sa + [v], sb, [x], sr);
      } else {
        var m := MergeIn(r, v, isTall, isLeft);
        var ab := Split(r, v, isLeft);
        MergeInInOrder(r, v, isTall, isLeft);
        var sa, sb := InOrder(ab.0, Left), InOrder(ab.1, Left);
        assert InOrder(Node(l, x, m), Left) == sl + [x] + InOrder(m, Left) by { InOrderNode(l, x, m); }
        assert InOrder(Node(l, x, ab.0), Left) == sl + [x] + sa by { InOrderNode(l, x, ab.0); }
        Regroup(sl + [x], sa, [v], sb);
      }
    }
  }

  /** Joining keeps both in-order sequences: `a`'s values, then `b`'s, read from either wing. */
  lemma {:induction false} JoinInOrder<T>(a: Tree<T>, b: Tree<T>, isTall: (T, T) -> bool)
    ensures InOrder(Join(a, b, isTall), Left) == InOrder(a, Left) + InOrder(b, Left)
    ensures InOrder(Join(a, b, isTall), Right) == InOrder(b, Right) + InOrder(a, Right)
    decreases Size(a) + Size(b)
  {
    if a.Nil? || b.Nil? {
    } else if isTall(b.value, a.value) {
      var j := Join(a, b.left, isTall);
      JoinInOrder(a, b.left, isTall);
      InOrderNode(j, b.value, b.right);
      InOrderNode(b.left, b.value, b.right);
      Regroup(InOrder(a, Left), InOrder(b.left, Left), [b.value], InOrder(b.right, Left));
      Regroup(InOrder(b.right, Right), [b.value], InOrder(b.left, Right), InOrder(a, Right));
    } else {
      var j := Join(a.right, b, isTall);
      JoinInOrder(a.right, b, isTall);
      InOrderNode(a.left, a.value, j);
      InOrderNode(a.left, a.value, a.right);
      Regroup(InOrder(a.left, Left), [a.value], InOrder(a.right, Left), InOrder(b, Left));
      Regroup(InOrder(b, Right), InOrder(a.right, Right), [a.value], InOrder(a.left, Right));
    }
  }

  // ---------------------------------------------------------------------------------------
  // Key order and heap order

  /** Around `v`, the split of a key-ordered tree puts everything `v` does not belong left of
      into the first tree and everything else into the second, and both stay key-ordered. */
  lemma {:induction false} SplitPartition<T(!new)>(t: Tree<T>, v: T, isLeft: (T, T) -> bool)
    requires StrictWeakOrder(isLeft) && Ordered(t, isLeft)
    ensures forall y :: y in Elems(Split(t, v, isLeft).0) ==> !isLeft(v, y)
    ensures forall y :: y in Elems(Split(t, v, isLeft).1) ==> isLeft(v, y)
    ensures Ordered(Split(t, v, isLeft).0, isLeft) && Ordered(Split(t, v, isLeft).1, isLeft)
  {
    if t.Node? {
      var l, x, r := t.left, t.value, t.right;
      if isLeft(v, x) {
        SplitPartition(l, v, isLeft);
        forall y | y in Elems(r)
          ensures isLeft(v, y)
        {
          assert isLeft(v, y) || isLeft(y, x);
        }
      } else {
        SplitPartition(r, v, isLeft);
        forall y | y in Elems(l)
          ensures !isLeft(v, y)
        {
          assert !isLeft(x, y);
        }
      }
    }
  }

  /** The split of a heap-ordered tree is two heap-ordered trees. */
  lemma {:induction false} SplitHeap<T>(t: Tree<T>, v: T, isTall: (T, T) -> bool, isLeft: (T, T) -> bool)
    requires HeapOrdered(t, isTall)
    ensures HeapOrdered(Split(t, v, isLeft).0, isTall) && HeapOrdered(Split(t, v, isLeft).1, isTall)
  {
    if t.Node? {
      if isLeft(v, t.value) {
        SplitHeap(t.left, v, isTall, isLeft);
      } else {
        SplitHeap(t.right, v, isTall, isLeft);
      }
    }
  }

  /** Merging a value into a key-ordered tree keeps it key-ordered. */
  lemma {:induction false} MergeInOrdered<T(!new)>(t: Tree<T>, v: T, isTall: (T, T) -> bool, isLeft: (T, T) -> bool)
    requires StrictWeakOrder(isLeft) && Ordered(t, isLeft)
    ensures Ordered(MergeIn(t, v, isTall, isLeft), isLeft)
  {
    if t.Node? {
      var l, x, r := t.left, t.value, t.right;
      if isTall(v, x) {
        SplitPartition(t, v, isLeft);
        var ab := Split(t, v, isLeft);
        forall y | y in Elems(ab.1)
          ensures !isLeft(y, v)
        {
          assert isLeft(v, y);
        }
      } else if isLeft(v, x) {
        MergeInOrdered(l, v, isTall, isLeft);
      } else {
        MergeInOrdered(r, v, isTall, isLeft);
      }
    }
  }

  /** Merging a value into a heap-ordered tree keeps it heap-ordered. */
  lemma {:induction false} MergeInHeap<T(!new)>(t: Tree<T>, v: T, isTall: (T, T) -> bool, isLeft: (T, T) -> bool)
    requires StrictWeakOrder(isTall) && HeapOrdered(t, isTall)
    ensures HeapOrdered(MergeIn(t, v, isTall, isLeft), isTall)
  {
    if t.Node? {
      var l, x, r := t.left, t.value, t.right;
      if isTall(v, x) {
        SplitHeap(t, v, isTall, isLeft);
        forall y | y in Elems(t)
          ensures !isTall(y, v)
        {
          if y != x {
            assert !isTall(y, x);
          }
        }
      } else if isLeft(v, x) {
        MergeInHeap(l, v, isTall, isLeft);
      } else {
        MergeInHeap(r, v, isTall, isLeft);
      }
    }
  }

  /** In a key-ordered node, the left subtree's values may all stay left of the right's. */
  lemma ChildrenSeparated<T(!new)>(t: Tree<T>, isLeft: (T, T) -> bool)
    requires StrictWeakOrder(isLeft) && t.Node? && Ordered(t, isLeft)
    ensures Separated(Elems(t.left), Elems(t.right), isLeft)
  {
    forall y, z | y in Elems(t.left) && z in Elems(t.right)
      ensures !isLeft(z, y)
    {
      assert !isLeft(z, t.value) && !isLeft(t.value, y);
    }
  }

  /** Joining two key-ordered trees, the first entirely left of the second, is key-ordered. */
  lemma {:induction false} JoinOrdered<T(!new)>(a: Tree<T>, b: Tree<T>, isTall: (T, T) -> bool, isLeft: (T, T) -> bool)
    requires Ordered(a, isLeft) && Ordered(b, isLeft) && Separated(Elems(a), Elems(b), isLeft)
    ensures Ordered(Join(a, b, isTall), isLeft)
    decreases Size(a) + Size(b)
  {
    if a.Nil? || b.Nil? {
    } else if isTall(b.value, a.value) {
      JoinOrdered(a, b.left, isTall, isLeft);
    } else {
      JoinOrdered(a.right, b, isTall, isLeft);
    }
  }

  /** Joining two heap-ordered trees is heap-ordered. */
  lemma {:induction false} JoinHeap<T(!new)>(a: Tree<T>, b: Tree<T>, isTall: (T, T) -> bool)
    requires StrictWeakOrder(isTall) && HeapOrdered(a, isTall) && HeapOrdered(b, isTall)
    ensures HeapOrdered(Join(a, b, isTall), isTall)
    decreases Size(a) + Size(b)
  {
    if a.Nil? || b.Nil? {
    } else if isTall(b.value, a.value) {
      JoinHeap(a, b.left, isTall);
      forall y | y in Elems(a)
        ensures !isTall(y, b.value)
      {
        if y != a.value {
          assert !isTall(y, a.value);
        }
      }
    } else {
      JoinHeap(a.right, b, isTall);
      forall y | y in Elems(b)
        ensures !isTall(y, a.value)
      {
        if y != b.value {
          assert !isTall(y, b.value);
        }
      }
    }
  }

  /** A concatenation around a pivot is sorted when both sides are, the pivot sits between
      them, and nothing on the right belongs left of anything on the left. */
  lemma SortedAround<T>(a: seq<T>, x: T, b: seq<T>, isLeft: (T, T) -> bool)
    requires Sorted(a, isLeft) && Sorted(b, isLeft)
    requires forall y :: y in a ==> !isLeft(x, y)
    requires forall z :: z in b ==> !isLeft(z, x)
    requires forall y, z :: y in a && z in b ==> !isLeft(z, y)
    ensures Sorted(a + [x] + b, isLeft)
  {
    var s := a + [x] + b;
    forall i, j | 0 <= i < j < |s|
      ensures !isLeft(s[j], s[i])
    {
      if j < |a| {
        assert s[i] == a[i] && s[j] == a[j];
      } else if j == |a| {
        assert s[i] == a[i];
      } else if i == |a| {
        assert s[j] == b[j - |a| - 1];
      } else if i > |a| {
        assert s[i] == b[i - |a| - 1] && s[j] == b[j - |a| - 1];
      } else {
        assert s[i] == a[i] && s[j] == b[j - |a| - 1];
      }
    }
  }

  /** The two sides of a sorted concatenation around a pivot. */
  lemma SortedParts<T>(a: seq<T>, x: T, b: seq<T>, isLeft: (T, T) -> bool)
    requires Sorted(a + [x] + b, isLeft)
    ensures Sorted(a, isLeft) && Sorted(b, isLeft)
    ensures forall y :: y in a ==> !isLeft(x, y)
    ensures forall z :: z in b ==> !isLeft(z, x)
  {
    var s := a + [x] + b;
    assert forall i :: 0 <= i < |a| ==> s[i] == a[i];
    assert forall i :: 0 <= i < |b| ==> s[|a| + 1 + i] == b[i];
    assert s[|a|] == x;
    forall i, j | 0 <= i < j < |b|
      ensures !isLeft(b[j], b[i])
    {
      assert s[|a| + 1 + i] == b[i] && s[|a| + 1 + j] == b[j];
    }
  }

  /** A key-ordered tree reads sorted in-order, and a tree that reads sorted in-order is
      key-ordered. */
  lemma {:induction false} OrderedSorted<T(!new)>(t: Tree<T>, isLeft: (T, T) -> bool)
    requires StrictWeakOrder(isLeft)
    ensures Ordered(t, isLeft) <==> Sorted(InOrder(t, Left), isLeft)
  {
    if t.Node? {
      var l, x, r := t.left, t.value, t.right;
      var sl, sr := InOrder(l, Left), InOrder(r, Left);
      InOrderNode(l, x, r);
      OrderedSorted(l, isLeft);
      OrderedSorted(r, isLeft);
      if Ordered(t, isLeft) {
        ChildrenSeparated(t, isLeft);
        forall y | y in sl
          ensures y in Elems(l)
        {
          InOrderElems(l, Left, y);
        }
        forall z | z in sr
          ensures z in Elems(r)
        {
          InOrderElems(r, Left, z);
        }
        SortedAround(sl, x, sr, isLeft);
      }
      if Sorted(InOrder(t, Left), isLeft) {
        SortedParts(sl, x, sr, isLeft);
        forall y | y in Elems(l)
          ensures y in sl
        {
          InOrderElems(l, Left, y);
        }
        forall z | z in Elems(r)
          ensures z in sr
        {
          InOrderElems(r, Left, z);
        }
      }
    }
  }

  // ---------------------------------------------------------------------------------------
  // Rewriting a slot

  /** The values to the `w` side of slot `p` in `InOrder(t, w)`. */
  function InBefore<X>(t: Tree<X>, p: Path, w: Side): seq<X>
    decreases p
  {
    if p == [] || t.Nil? then []
    else if p[0] == w then InBefore(Child(t, w), p[1..], w)
    else InOrder(Child(t, w), w) + [t.value] + InBefore(Child(t, Other(w)), p[1..], w)
  }

  /** The values to the other side of slot `p` in `InOrder(t, w)`. */
  function InAfter<X>(t: Tree<X>, p: Path, w: Side): seq<X>
    decreases p
  {
    if p == [] || t.Nil? then []
    else if p[0] == w then InAfter(Child(t, w), p[1..], w) + [t.value] + InOrder(Child(t, Other(w)), w)
    else InAfter(Child(t, Other(w)), p[1..], w)
  }

  lemma {:induction false} AtNil<X>(p: Path)
    ensures At<X>(Nil, p) == Nil
  {
    if p != [] {
      AtNil<X>(Parent(p));
    }
  }

  /** A slot below the root is a slot of the child its path starts with. */
  lemma SlotCons<X>(t: Tree<X>, p: Path)
    requires p != [] && Slot(t, p)
    ensures t.Node? && Slot(Child(t, p[0]), p[1..])
    ensures At(t, p) == At(Child(t, p[0]), p[1..])
  {
    assert p == [p[0]] + p[1..];
    AtCons(t, p[0], p[1..]);
    if |p| == 1 {
      assert Parent(p) == [];
    } else {
      assert Parent(p) == [p[0]] + Parent(p[1..]);
      AtCons(t, p[0], Parent(p[1..]));
      if t.Nil? {
        AtNil<X>(Parent(p[1..]));
      }
    }
  }

  /** Rewriting slot `p` of a node leaves the node and its other child in place. */
  lemma ReplaceChild<X>(t: Tree<X>, p: Path, u: Tree<X>)
    requires t.Node? && p != []
    ensures ReplaceAt(t, p, u).Node? && ReplaceAt(t, p, u).value == t.value
    ensures Child(ReplaceAt(t, p, u), p[0]) == ReplaceAt(Child(t, p[0]), p[1..], u)
    ensures Child(ReplaceAt(t, p, u), Other(p[0])) == Child(t, Other(p[0]))
  {
  }

  /** Writing back the subtree already in slot `p` changes nothing. */
  lemma {:induction false} ReplaceSame<X>(t: Tree<X>, p: Path)
    ensures ReplaceAt(t, p, At(t, p)) == t
    decreases p
  {
    if p != [] && t.Node? {
      assert p == [p[0]] + p[1..];
      AtCons(t, p[0], p[1..]);
      ReplaceSame(Child(t, p[0]), p[1..]);
    }
  }

  /** Splicing a block into the `w` subtree of a node, as sequences. */
  lemma SpliceWing<X>(r: seq<X>, c: seq<X>, x: X, o: seq<X>, b: seq<X>, m: seq<X>, a: seq<X>)
    requires r == c + [x] + o && c == b + m + a
    ensures r == b + m + (a + [x] + o)
  {
  }

  /** Splicing a block into the other subtree of a node, as sequences. */
  lemma SpliceOther<X>(r: seq<X>, i: seq<X>, x: X, c: seq<X>, b: seq<X>, m: seq<X>, a: seq<X>)
    requires r == i + [x] + c && c == b + m + a
    ensures r == (i + [x] + b) + m + a
  {
  }

  /** Rewriting slot `p` replaces exactly the block of the old subtree in the in-order
      sequence, between the values before the slot and those after it. */
  lemma {:induction false} ReplaceInOrder<X>(t: Tree<X>, p: Path, u: Tree<X>, w: Side)
    requires Slot(t, p)
    ensures InOrder(ReplaceAt(t, p, u), w) == InBefore(t, p, w) + InOrder(u, w) + InAfter(t, p, w)
    decreases p
  {
    if p != [] {
      SlotCons(t, p);
      ReplaceChild(t, p, u);
      var s, q := p[0], p[1..];
      var rt, c := ReplaceAt(t, p, u), ReplaceAt(Child(t, s), q, u);
      ReplaceInOrder(Child(t, s), q, u, w);
      var b, m, a := InBefore(Child(t, s), q, w), InOrder(u, w), InAfter(Child(t, s), q, w);
      assert InOrder(rt, w) == InOrder(Child(rt, w), w) + [rt.value] + InOrder(Child(rt, Other(w)), w);
      if s == w {
        assert InBefore(t, p, w) == b && InAfter(t, p, w) == a + [t.value] + InOrder(Child(t, Other(w)), w);
        SpliceWing(InOrder(rt, w), InOrder(c, w), t.value, InOrder(Child(t, Other(w)), w), b, m, a);
      } else {
        assert Other(w) == s;
        assert InBefore(t, p, w) == InOrder(Child(t, w), w) + [t.value] + b && InAfter(t, p, w) == a;
        SpliceOther(InOrder(rt, w), InOrder(Child(t, w), w), t.value, InOrder(c, w), b, m, a);
      }
    }
  }

  /** The values before slot `p` are as many as its in-order offset. */
  lemma {:induction false} InBeforeLength<X>(t: Tree<X>, p: Path, w: Side)
    requires Slot(t, p)
    ensures |InBefore(t, p, w)| == InOffset(t, p, w)
    decreases p
  {
    if p != [] {
      SlotCons(t, p);
      assert p == [p[0]] + p[1..];
      InOffsetCons(t, p[0], p[1..], w);
      InBeforeLength(Child(t, p[0]), p[1..], w);
    }
  }

  /** Rewriting a slot with a subtree of some of its own values keeps the values of the tree
      within the old ones. */
  lemma {:induction false} ReplaceElems<X>(t: Tree<X>, p: Path, u: Tree<X>)
    requires Elems(u) <= Elems(At(t, p))
    ensures Elems(ReplaceAt(t, p, u)) <= Elems(t)
    decreases p
  {
    if p != [] {
      if t.Nil? {
      } else {
        assert p == [p[0]] + p[1..];
        AtCons(t, p[0], p[1..]);
        ReplaceElems(Child(t, p[0]), p[1..], u);
      }
    }
  }

  /** A heap-ordered node stays heap-ordered when child `s` gives way to a heap-ordered
      subtree of some of its values. */
  lemma HeapWithChild<T>(t: Tree<T>, rt: Tree<T>, s: Side, isTall: (T, T) -> bool)
    requires t.Node? && rt.Node? && rt.value == t.value && Child(rt, Other(s)) == Child(t, Other(s))
    requires HeapOrdered(t, isTall) && HeapOrdered(Child(rt, s), isTall)
    requires Elems(Child(rt, s)) <= Elems(Child(t, s))
    ensures HeapOrdered(rt, isTall)
  {
    if s == Right {
      assert Child(rt, Left) == Child(t, Left);
    }
  }

  /** ... and keeps the tree heap-ordered when the new subtree is. */
  lemma {:induction false} ReplaceHeap<T>(t: Tree<T>, p: Path, u: Tree<T>, isTall: (T, T) -> bool)
    requires HeapOrdered(t, isTall) && HeapOrdered(u, isTall) && Elems(u) <= Elems(At(t, p))
    ensures HeapOrdered(ReplaceAt(t, p, u), isTall)
    decreases p
  {
    if p != [] && t.Node? {
      var s, q := p[0], p[1..];
      assert p == [s] + q;
      AtCons(t, s, q);
      assert HeapOrdered(Child(t, s), isTall);
      ReplaceHeap(Child(t, s), q, u, isTall);
      ReplaceElems(Child(t, s), q, u);
      ReplaceChild(t, p, u);
      HeapWithChild(t, ReplaceAt(t, p, u), s, isTall);
    }
  }

  /** A key-ordered node stays key-ordered when child `s` gives way to a key-ordered
      subtree of some of its values. */
  lemma OrderedWithChild<T>(t: Tree<T>, rt: Tree<T>, s: Side, isLeft: (T, T) -> bool)
    requires t.Node? && rt.Node? && rt.value == t.value && Child(rt, Other(s)) == Child(t, Other(s))
    requires Ordered(t, isLeft) && Ordered(Child(rt, s), isLeft)
    requires Elems(Child(rt, s)) <= Elems(Child(t, s))
    ensures Ordered(rt, isLeft)
  {
    if s == Right {
      assert Child(rt, Left) == Child(t, Left);
    }
  }

  /** ... and key-ordered when the new subtree is. */
  lemma {:induction false} ReplaceOrdered<T>(t: Tree<T>, p: Path, u: Tree<T>, isLeft: (T, T) -> bool)
    requires Ordered(t, isLeft) && Ordered(u, isLeft) && Elems(u) <= Elems(At(t, p))
    ensures Ordered(ReplaceAt(t, p, u), isLeft)
    decreases p
  {
    if p != [] && t.Node? {
      var s, q := p[0], p[1..];
      assert p == [s] + q;
      AtCons(t, s, q);
      assert Ordered(Child(t, s), isLeft);
      ReplaceOrdered(Child(t, s), q, u, isLeft);
      ReplaceElems(Child(t, s), q, u);
      ReplaceChild(t, p, u);
      OrderedWithChild(t, ReplaceAt(t, p, u), s, isLeft);
    }
  }

  // ---------------------------------------------------------------------------------------
  // Insertion under a hint, and erasure of one node

  /** Merging `v` into the subtree at any slot along its own insertion path gives the same
      tree as merging it in from the root: a correct hint changes nothing but where the
      descent starts. */
  lemma {:induction false} HintedInsert<T>(t: Tree<T>, p: Path, v: T, isTall: (T, T) -> bool, isLeft: (T, T) -> bool)
    requires IsPrefix(p, InsertedPath(t, v, isTall, isLeft))
    ensures ReplaceAt(t, p, MergeIn(At(t, p), v, isTall, isLeft)) == MergeIn(t, v, isTall, isLeft)
    decreases p
  {
    if p != [] {
      var q := InsertedPath(t, v, isTall, isLeft);
      assert p == [p[0]] + p[1..] && q == [q[0]] + q[1..];
      AtCons(t, p[0], p[1..]);
      var c := Child(t, p[0]);
      assert IsPrefix(p[1..], InsertedPath(c, v, isTall, isLeft)) by {
        assert q[1..][..|p| - 1] == q[..|p|][1..];
      }
      HintedInsert(c, p[1..], v, isTall, isLeft);
    }
  }

  /** `InsertedPath` leads to the new node in the merged tree. */
  lemma {:induction false} InsertedAt<T>(t: Tree<T>, v: T, isTall: (T, T) -> bool, isLeft: (T, T) -> bool)
    ensures ValidPath(MergeIn(t, v, isTall, isLeft), InsertedPath(t, v, isTall, isLeft))
    ensures At(MergeIn(t, v, isTall, isLeft), InsertedPath(t, v, isTall, isLeft)).value == v
  {
    if t.Node? && !isTall(v, t.value) {
      var m := MergeIn(t, v, isTall, isLeft);
      var s := if isLeft(v, t.value) then Left else Right;
      InsertedAt(Child(t, s), v, isTall, isLeft);
      AtCons(m, s, InsertedPath(Child(t, s), v, isTall, isLeft));
    }
  }

  /** The new node's in-order index is the number of values the split puts before it. */
  lemma {:induction false} InsertedIndex<T>(t: Tree<T>, v: T, isTall: (T, T) -> bool, isLeft: (T, T) -> bool)
    ensures ValidPath(MergeIn(t, v, isTall, isLeft), InsertedPath(t, v, isTall, isLeft))
    ensures InIndex(MergeIn(t, v, isTall, isLeft), InsertedPath(t, v, isTall, isLeft), Left)
            == |InOrder(Split(t, v, isLeft).0, Left)|
  {
    InsertedAt(t, v, isTall, isLeft);
    if t.Node? && !isTall(v, t.value) {
      var m := MergeIn(t, v, isTall, isLeft);
      var s := if isLeft(v, t.value) then Left else Right;
      var c := Child(t, s);
      var q := InsertedPath(c, v, isTall, isLeft);
      assert Child(m, s) == MergeIn(c, v, isTall, isLeft);
      assert InsertedPath(t, v, isTall, isLeft) == [s] + q;
      InsertedIndex(c, v, isTall, isLeft);
      AtCons(m, s, q);
      InOffsetCons(m, s, q, Left);
    }
  }

  /** In a key-ordered tree the new node sits at the upper bound of `v` in the old in-order
      sequence: the insertion path addresses the inserted element and no other. */
  lemma InsertedUpperBound<T(!new)>(t: Tree<T>, v: T, isTall: (T, T) -> bool, isLeft: (T, T) -> bool)
    requires StrictWeakOrder(isLeft) && Ordered(t, isLeft)
    ensures ValidPath(MergeIn(t, v, isTall, isLeft), InsertedPath(t, v, isTall, isLeft))
    ensures InIndex(MergeIn(t, v, isTall, isLeft), InsertedPath(t, v, isTall, isLeft), Left)
            == UpperBound(InOrder(t, Left), v, isLeft)
  {
    InsertedIndex(t, v, isTall, isLeft);
    MergeInUpperBound(t, v, isTall, isLeft);
  }

  /** Inserting a value and then erasing the node it landed in gives back the in-order
      sequence the tree had before. */
  lemma InsertEraseInOrder<T>(t: Tree<T>, v: T, isTall: (T, T) -> bool, isLeft: (T, T) -> bool)
    ensures ValidPath(MergeIn(t, v, isTall, isLeft), InsertedPath(t, v, isTall, isLeft))
    ensures InOrder(EraseSlot(MergeIn(t, v, isTall, isLeft), InsertedPath(t, v, isTall, isLeft), isTall), Left)
            == InOrder(t, Left)
  {
    var m, q := MergeIn(t, v, isTall, isLeft), InsertedPath(t, v, isTall, isLeft);
    var a, b := InOrder(Split(t, v, isLeft).0, Left), InOrder(Split(t, v, isLeft).1, Left);
    InsertedIndex(t, v, isTall, isLeft);
    EraseSlotInOrder(m, q, isTall, Left);
    MergeInInOrder(t, v, isTall, isLeft);
    SplitInOrder(t, v, isLeft);
    DropAt(a, v, b);
  }

  /** Dropping the pivot from `a + [x] + b` at index `|a|`. */
  lemma DropAt<X>(a: seq<X>, x: X, b: seq<X>)
    ensures (a + [x] + b)[..|a|] + (a + [x] + b)[|a| + 1..] == a + b
  {
    assert (a + [x] + b)[..|a|] == a;
    assert (a + [x] + b)[|a| + 1..] == b;
  }

  /** Taking out the element `x` from the middle of a sequence around a block. */
  lemma DropMiddle<X>(s: seq<X>, e: seq<X>, k: nat, b: seq<X>, c: seq<X>, x: X, d: seq<X>, a: seq<X>)
    requires s == b + (c + [x] + d) + a && e == b + (c + d) + a && k == |b| + |c|
    ensures k < |s| && e == s[..k] + s[k + 1..]
  {
    assert s == (b + c) + [x] + (d + a);
    assert s[..k] == b + c;
    assert s[k + 1..] == d + a;
  }

  /** The children of a node joined: its in-order sequence without the node itself. */
  lemma JoinChildren<T>(n: Tree<T>, isTall: (T, T) -> bool, w: Side)
    requires n.Node?
    ensures InOrder(n, w) == InOrder(Child(n, w), w) + [n.value] + InOrder(Child(n, Other(w)), w)
    ensures InOrder(Join(n.left, n.right, isTall), w) == InOrder(Child(n, w), w) + InOrder(Child(n, Other(w)), w)
  {
    JoinInOrder(n.left, n.right, isTall);
  }

  /** The in-order sequence around the node at `p`: the values before its slot, its `w`
      subtree, the node, its other subtree, and the values after its slot. */
  lemma SlotSplice<T>(t: Tree<T>, p: Path, w: Side)
    requires ValidPath(t, p) && Slot(t, p)
    ensures InOrder(t, w) == InBefore(t, p, w)
      + (InOrder(Child(At(t, p), w), w) + [At(t, p).value] + InOrder(Child(At(t, p), Other(w)), w))
      + InAfter(t, p, w)
  {
    ReplaceInOrder(t, p, At(t, p), w);
    ReplaceSame(t, p);
  }

  /** After erasing the node at `p`, its two subtrees stand together between the values
      before and after its slot. */
  lemma EraseSplice<T>(t: Tree<T>, p: Path, isTall: (T, T) -> bool, w: Side)
    requires ValidPath(t, p) && Slot(t, p)
    ensures InOrder(EraseSlot(t, p, isTall), w) == InBefore(t, p, w)
      + (InOrder(Child(At(t, p), w), w) + InOrder(Child(At(t, p), Other(w)), w))
      + InAfter(t, p, w)
  {
    var n := At(t, p);
    JoinChildren(n, isTall, w);
    ReplaceInOrder(t, p, Join(n.left, n.right, isTall), w);
  }

  /** A node's path is a slot. */
  lemma NodeSlot<T>(t: Tree<T>, p: Path)
    requires ValidPath(t, p)
    ensures Slot(t, p)
  {
    if p != [] {
      PrefixValid(t, p, |p| - 1);
    }
  }

  /** The node at `p` comes after the values before its slot and after its `w` subtree. */
  lemma InIndexBefore<T>(t: Tree<T>, p: Path, w: Side)
    requires Slot(t, p)
    ensures InIndex(t, p, w) == |InBefore(t, p, w)| + |InOrder(Child(At(t, p), w), w)|
  {
    InBeforeLength(t, p, w);
  }

  /** Erasing the node at `p` removes exactly its value from the in-order sequence, at index
      `InIndex(t, p, w)`, for either wing. */
  lemma EraseSlotInOrder<T>(t: Tree<T>, p: Path, isTall: (T, T) -> bool, w: Side)
    requires ValidPath(t, p)
    ensures InIndex(t, p, w) < |InOrder(t, w)|
    ensures InOrder(EraseSlot(t, p, isTall), w)
            == InOrder(t, w)[..InIndex(t, p, w)] + InOrder(t, w)[InIndex(t, p, w) + 1..]
  {
    var n := At(t, p);
    NodeSlot(t, p);
    SlotSplice(t, p, w);
    EraseSplice(t, p, isTall, w);
    InIndexBefore(t, p, w);
    DropMiddle(InOrder(t, w), InOrder(EraseSlot(t, p, isTall), w), InIndex(t, p, w), InBefore(t, p, w),
               InOrder(Child(n, w), w), n.value, InOrder(Child(n, Other(w)), w), InAfter(t, p, w));
  }

  /** Erasing a node of a heap-ordered tree leaves it heap-ordered. */
  lemma EraseSlotHeap<T(!new)>(t: Tree<T>, p: Path, isTall: (T, T) -> bool)
    requires ValidPath(t, p) && StrictWeakOrder(isTall) && HeapOrdered(t, isTall)
    ensures HeapOrdered(EraseSlot(t, p, isTall), isTall)
  {
    var n := At(t, p);
    HeapAt(t, p, isTall);
    JoinHeap(n.left, n.right, isTall);
    ReplaceHeap(t, p, Join(n.left, n.right, isTall), isTall);
  }

  /** Erasing a node of a key-ordered tree leaves it key-ordered. */
  lemma EraseSlotOrdered<T(!new)>(t: Tree<T>, p: Path, isTall: (T, T) -> bool, isLeft: (T, T) -> bool)
    requires ValidPath(t, p) && StrictWeakOrder(isLeft) && Ordered(t, isLeft)
    ensures Ordered(EraseSlot(t, p, isTall), isLeft)
  {
    var n := At(t, p);
    OrderedAt(t, p, isLeft);
    ChildrenSeparated(n, isLeft);
    JoinOrdered(n.left, n.right, isTall, isLeft);
    ReplaceOrdered(t, p, Join(n.left, n.right, isTall), isLeft);
  }

  /** Every subtree of a heap-ordered tree is heap-ordered. */
  lemma {:induction false} HeapAt<T>(t: Tree<T>, p: Path, isTall: (T, T) -> bool)
    requires HeapOrdered(t, isTall)
    ensures HeapOrdered(At(t, p), isTall)
    decreases p
  {
    if p != [] && t.Node? {
      assert p == [p[0]] + p[1..];
      AtCons(t, p[0], p[1..]);
      HeapAt(Child(t, p[0]), p[1..], isTall);
    } else if p != [] {
      AtNil<T>(p);
    }
  }

  /** Every subtree of a key-ordered tree is key-ordered. */
  lemma {:induction false} OrderedAt<T>(t: Tree<T>, p: Path, isLeft: (T, T) -> bool)
    requires Ordered(t, isLeft)
    ensures Ordered(At(t, p), isLeft)
    decreases p
  {
    if p != [] && t.Node? {
      assert p == [p[0]] + p[1..];
      AtCons(t, p[0], p[1..]);
      OrderedAt(Child(t, p[0]), p[1..], isLeft);
    } else if p != [] {
      AtNil<T>(p);
    }
  }

  // ---------------------------------------------------------------------------------------
  // Reference definitions on sequences

  /** The first index of `s` holding a value that `v` belongs left of; `|s|` when none does. */
  function UpperBound<T>(s: seq<T>, v: T, isLeft: (T, T) -> bool): (k: nat)
    ensures k <= |s|
    ensures forall i :: 0 <= i < k ==> !isLeft(v, s[i])
    ensures k < |s| ==> isLeft(v, s[k])
  {
    if s == [] then 0 else if isLeft(v, s[0]) then 0 else 1 + UpperBound(s[1..], v, isLeft)
  }

  /** Where a sequence falls apart into values `v` does not belong left of, followed by values
      it does, the upper bound is the length of the first part. */
  lemma {:induction false} UpperBoundSplit<T>(a: seq<T>, b: seq<T>, v: T, isLeft: (T, T) -> bool)
    requires forall y :: y in a ==> !isLeft(v, y)
    requires b != [] ==> isLeft(v, b[0])
    ensures UpperBound(a + b, v, isLeft) == |a|
  {
    if a != [] {
      assert (a + b)[0] == a[0] && (a + b)[1..] == a[1..] + b;
      UpperBoundSplit(a[1..], b, v, isLeft);
    } else {
      assert a + b == b;
    }
  }

  /** Merging `v` into a key-ordered tree inserts it into the in-order sequence at the upper
      bound: after every value it does not belong left of, so after the values equivalent to
      it, and before the rest. */
  lemma MergeInUpperBound<T(!new)>(t: Tree<T>, v: T, isTall: (T, T) -> bool, isLeft: (T, T) -> bool)
    requires StrictWeakOrder(isLeft) && Ordered(t, isLeft)
    ensures var s, k := InOrder(t, Left), UpperBound(InOrder(t, Left), v, isLeft);
            InOrder(MergeIn(t, v, isTall, isLeft), Left) == s[..k] + [v] + s[k..]
  ensures UpperBound(InOrder(t, Left), v, isLeft) == |InOrder(Split(t, v, isLeft).0, Left)|
  {
    var ab := Split(t, v, isLeft);
    var a, b := InOrder(ab.0, Left), InOrder(ab.1, Left);
    SplitInOrder(t, v, isLeft);
    SplitPartition(t, v, isLeft);
    MergeInInOrder(t, v, isTall, isLeft);
    forall y | y in a
      ensures !isLeft(v, y)
    {
      InOrderElems(ab.0, Left, y);
    }
    if b != [] {
      InOrderElems(ab.1, Left, b[0]);
    }
    UpperBoundSplit(a, b, v, isLeft);
    var s := a + b;
    assert s[..|a|] == a && s[|a|..] == b;
  }

  /** With the default predicates the split keeps everything on the left. */
  lemma {:induction false} SplitIndifferent<T>(t: Tree<T>, v: T)
    ensures Split(t, v, Indifferent) == (t, Nil)
  {
    if t.Node? {
      SplitIndifferent(t.right, v);
    }
  }

  /** With the default predicates a tree keeps its values in insertion order: merging a value
      in appends it to the in-order sequence. */
  lemma DefaultAppends<T>(t: Tree<T>, v: T)
    ensures InOrder(MergeIn(t, v, Indifferent, Indifferent), Left) == InOrder(t, Left) + [v]
  {
    SplitIndifferent(t, v);
    MergeInInOrder(t, v, Indifferent, Indifferent);
  }

  /** Erasing a node keeps both orders, and in every wing's in-order sequence removes exactly
      the node's value. */
  lemma EraseSlotKeeps<T(!new)>(t: Tree<T>, p: Path, isTall: (T, T) -> bool, isLeft: (T, T) -> bool)
    requires ValidPath(t, p) && StrictWeakOrder(isTall) && StrictWeakOrder(isLeft)
    requires HeapOrdered(t, isTall) && Ordered(t, isLeft)
    ensures HeapOrdered(EraseSlot(t, p, isTall), isTall) && Ordered(EraseSlot(t, p, isTall), isLeft)
    ensures forall w :: InIndex(t, p, w) < |InOrder(t, w)|
    ensures forall w :: InOrder(EraseSlot(t, p, isTall), w)
                        == InOrder(t, w)[..InIndex(t, p, w)] + InOrder(t, w)[InIndex(t, p, w) + 1..]
  {
    EraseSlotHeap(t, p, isTall);
    EraseSlotOrdered(t, p, isTall, isLeft);
    EraseSlotInOrder(t, p, isTall, Left);
    EraseSlotInOrder(t, p, isTall, Right);
    forall w
      ensures InIndex(t, p, w) < |InOrder(t, w)|
      ensures InOrder(EraseSlot(t, p, isTall), w)
              == InOrder(t, w)[..InIndex(t, p, w)] + InOrder(t, w)[InIndex(t, p, w) + 1..]
    {
      if w == Left {
      } else {
      }
    }
  }
}
