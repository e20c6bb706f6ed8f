/** The `tree` container: a treap owning its root, ordered by two caller-supplied predicates.
    Positions in it are paths from the root; the end position is `None`. */
module TreeContainer {
  import opened Sides
  import opened Wrappers
  import B = BinaryTree
  import opened Treap

  /** The values of `t` in the traversal of `order` leaning toward `wing`. */
  function Sequence<T>(t: B.Tree<T>, order: Order, wing: Side): seq<T>
  {
    if order == Pre then B.PreOrder(t, wing) else B.InOrder(t, wing)
  }

  /** Index of a position in the traversal of `order` leaning toward `wing`; the end sits one
      past the last value. */
  function IndexOf<T>(t: B.Tree<T>, order: Order, wing: Side, pos: Option<B.Path>): (i: nat)
    requires pos.Some? ==> B.ValidPath(t, pos.value)
    ensures i <= B.Size(t) && (i == B.Size(t) <==> pos.None?)
    ensures pos.Some? ==> i < |Sequence(t, order, wing)| && Sequence(t, order, wing)[i] == B.At(t, pos.value).value
  {
    match pos
    case None => B.Size(t)
    case Some(p) =>
      if order == Pre then B.PreIndexed(t, p, wing); B.PreOffset(t, p, wing)
      else B.InIndexed(t, p, wing); B.InIndex(t, p, wing)
  }

  /** The position at index `i` of the traversal. */
  function PathAt<T>(t: B.Tree<T>, order: Order, wing: Side, i: nat): (p: B.Path)
    requires i < B.Size(t)
    ensures B.ValidPath(t, p) && IndexOf(t, order, wing, Some(p)) == i
  {
    if order == Pre then B.PrePathAt(t, wing, i) else B.InPathAt(t, wing, i)
  }

  /** The positions of the traversal, in the order `++` visits them from `begin()`. */
  function Positions<T>(t: B.Tree<T>, order: Order, wing: Side): (ps: seq<B.Path>)
    ensures |ps| == B.Size(t)
    ensures forall i :: 0 <= i < |ps| ==> B.ValidPath(t, ps[i]) && IndexOf(t, order, wing, Some(ps[i])) == i
  {
    seq(B.Size(t), i requires 0 <= i < B.Size(t) => PathAt(t, order, wing, i))
  }

  /** Every position of the tree is the entry of `Positions` at its own index, and no
      position occurs twice. */
  lemma PositionAt<T>(t: B.Tree<T>, order: Order, wing: Side, p: B.Path)
    requires B.ValidPath(t, p)
    ensures IndexOf(t, order, wing, Some(p)) < B.Size(t)
    ensures Positions(t, order, wing)[IndexOf(t, order, wing, Some(p))] == p
  {
    var ps, i := Positions(t, order, wing), IndexOf(t, order, wing, Some(p));
    if order == Pre {
      B.PreOffsetInjective(t, ps[i], p, wing);
    } else {
      B.InIndexInjective(t, ps[i], p, wing);
    }
  }

  lemma PositionsDistinct<T>(t: B.Tree<T>, order: Order, wing: Side)
    ensures B.Distinct(Positions(t, order, wing))
  {
    var ps := Positions(t, order, wing);
    forall i, j | 0 <= i < j < |ps|
      ensures ps[i] != ps[j]
    {
      assert IndexOf(t, order, wing, Some(ps[i])) != IndexOf(t, order, wing, Some(ps[j]));
    }
  }

  /** Where `k` increments lead from `x` over the traversal `xs`: each one moves to the
      successor, and the end stays at the end. */
  function Advance<X(==)>(xs: seq<X>, x: Option<X>, k: nat): Option<X>
    decreases k
  {
    if k == 0 then x else Advance(xs, B.Successor(xs, x), k - 1)
  }

  /** `y` is reachable from `x` by `++` over the traversal `xs`. */
  ghost predicate Reachable<X>(xs: seq<X>, x: Option<X>, y: Option<X>)
  {
    exists k: nat :: Advance(xs, x, k) == y
  }

  lemma {:induction false} AdvanceEnd<X>(xs: seq<X>, k: nat)
    ensures Advance(xs, None, k) == None
  {
    if k > 0 {
      AdvanceEnd(xs, k - 1);
    }
  }

  /** On a traversal without repeats, `k` increments move `k` places on, or to the end. */
  lemma {:induction false} AdvanceAt<X>(xs: seq<X>, i: nat, k: nat)
    requires B.Distinct(xs) && i < |xs|
    ensures Advance(xs, Some(xs[i]), k) == if i + k < |xs| then Some(xs[i + k]) else None
    decreases k
  {
    if k > 0 {
      B.SuccessorAt(xs, i);
      if i + 1 < |xs| {
        AdvanceAt(xs, i + 1, k - 1);
      } else {
        AdvanceEnd(xs, k - 1);
      }
    }
  }

  /** On a traversal without repeats, the element at `j` is reachable from the one at `i`
      exactly when `j` does not come before `i`. */
  lemma ReachableIndices<X>(xs: seq<X>, i: nat, j: nat)
    requires B.Distinct(xs) && i < |xs| && j < |xs|
    ensures Reachable(xs, Some(xs[i]), Some(xs[j])) <==> i <= j
  {
    if i <= j {
      AdvanceAt(xs, i, j - i);
    }
    if Reachable(xs, Some(xs[i]), Some(xs[j])) {
      var k: nat :| Advance(xs, Some(xs[i]), k) == Some(xs[j]);
      AdvanceAt(xs, i, k);
    }
  }

  /** The end is reachable from every position of the traversal, and from the end nothing
      else is. */
  lemma ReachableEnd<X>(xs: seq<X>, i: nat, y: X)
    requires B.Distinct(xs) && i < |xs|
    ensures Reachable(xs, Some(xs[i]), None) && Reachable(xs, None, None)
    ensures !Reachable(xs, None, Some(y))
  {
    AdvanceAt(xs, i, |xs|);
    assert Advance(xs, None, 0) == None;
    if Reachable(xs, None, Some(y)) {
      var k: nat :| Advance(xs, None, k) == Some(y);
      AdvanceEnd(xs, k);
    }
  }

  /** `last` is reachable from `first` by `++` exactly when it does not come before `first`
      in the traversal. */
  lemma PositionsReachable<T>(t: B.Tree<T>, order: Order, wing: Side, first: Option<B.Path>, last: Option<B.Path>)
    requires first.Some? ==> B.ValidPath(t, first.value)
    requires last.Some? ==> B.ValidPath(t, last.value)
    ensures Reachable(Positions(t, order, wing), first, last)
            <==> IndexOf(t, order, wing, first) <= IndexOf(t, order, wing, last)
  {
    var ps := Positions(t, order, wing);
    PositionsDistinct(t, order, wing);
    if first.Some? {
      PositionAt(t, order, wing, first.value);
    }
    if last.Some? {
      PositionAt(t, order, wing, last.value);
    }
    match (first, last)
    case (Some(p), Some(q)) =>
      ReachableIndices(ps, IndexOf(t, order, wing, first), IndexOf(t, order, wing, last));
    case (Some(p), None) =>
      ReachableEnd(ps, IndexOf(t, order, wing, first), p);
    case (None, Some(q)) =>
      ReachableEnd(ps, IndexOf(t, order, wing, last), q);
    case (None, None) =>
      assert Advance(ps, None, 0) == None;
  }

  /** The index range `[first, last)` erases: it starts at `first`, ends at `last` when that
      is reachable from `first` by `++`, and runs to the end otherwise. */
  function EraseRange<T>(t: B.Tree<T>, order: Order, wing: Side, first: Option<B.Path>, last: Option<B.Path>): (r: (nat, nat))
    requires first.Some? ==> B.ValidPath(t, first.value)
    requires last.Some? ==> B.ValidPath(t, last.value)
    ensures r.0 <= r.1 <= B.Size(t)
    ensures r.0 == IndexOf(t, order, wing, first)
    ensures Reachable(Positions(t, order, wing), first, last) ==> r.1 == IndexOf(t, order, wing, last)
    ensures !Reachable(Positions(t, order, wing), first, last) ==> r.1 == B.Size(t)
  {
    PositionsReachable(t, order, wing, first, last);
    var i, j := IndexOf(t, order, wing, first), IndexOf(t, order, wing, last);
    if j < i then (i, B.Size(t)) else (i, j)
  }

  /** Removing `n` values at index `i` of a sequence, one at a time. */
  lemma DropOne<X>(s0: seq<X>, cur: seq<X>, i: nat, n: nat)
    requires i + n < |s0| && cur == s0[..i] + s0[i + n..]
    ensures i < |cur| && cur[..i] + cur[i + 1..] == s0[..i] + s0[i + n + 1..]
  {
    assert cur[..i] == s0[..i];
    assert cur[i + 1..] == s0[i + n + 1..];
  }

  /** Taking out again the element just put in at index `k`. */
  lemma InsertDrop<X>(s0: seq<X>, s1: seq<X>, s2: seq<X>, k: nat, v: X)
    requires k <= |s0| && s1 == s0[..k] + [v] + s0[k..] && s2 == s1[..k] + s1[k + 1..]
    ensures s2 == s0
  {
    DropAt(s0[..k], v, s0[k..]);
    assert s0[..k] + s0[k..] == s0;
  }

  class Tree<T(==, !new)> {
    const isTall: (T, T) -> bool
    const isLeft: (T, T) -> bool
    var root: B.Tree<T>

    /** Both predicates are strict weak orders, the root subtree is heap-ordered by `isTall`
        and key-ordered by `isLeft`. */
    ghost predicate Valid()
      reads this
    {
      StrictWeakOrder(isTall) && StrictWeakOrder(isLeft)
      && HeapOrdered(root, isTall) && Ordered(root, isLeft)
    }

    /** The values in key order. */
    function Values(): seq<T>
      reads this
    {
      B.InOrder(root, Left)
    }

    constructor (isTall: (T, T) -> bool, isLeft: (T, T) -> bool)
      requires StrictWeakOrder(isTall) && StrictWeakOrder(isLeft)
      ensures Valid() && root == B.Nil && this.isTall == isTall && this.isLeft == isLeft
    {
      this.isTall := isTall;
      this.isLeft := isLeft;
      root := B.Nil;
    }

    /** Both predicates left at their default, `Indifferent`. */
    constructor Default()
      ensures Valid() && root == B.Nil
      ensures forall a, b :: !isTall(a, b) && !isLeft(a, b)
    {
      isTall := Indifferent;
      isLeft := Indifferent;
      root := B.Nil;
      IndifferentStrictWeakOrder<T>();
    }

    /** The private insert helper: merges a single new node holding `v` into the subtree in
        slot `p` and writes the result back into that slot. Called only with a slot on the
        new value's own insertion path, where it agrees with a merge from the root. Answers
        the path of the new node. */
    method InsertAt(p: B.Path, v: T) returns (q: B.Path)
      requires Valid() && B.IsPrefix(p, InsertedPath(root, v, isTall, isLeft))
      modifies this
      ensures root == ReplaceAt(old(root), p, MergeIn(B.At(old(root), p), v, isTall, isLeft))
      ensures root == MergeIn(old(root), v, isTall, isLeft)
      ensures Valid() && B.ValidPath(root, q) && B.At(root, q).value == v
      ensures q == InsertedPath(old(root), v, isTall, isLeft)
      ensures B.InIndex(root, q, Left) == old(UpperBound(Values(), v, isLeft))
      ensures Values() == old(Values()[..UpperBound(Values(), v, isLeft)] + [v] + Values()[UpperBound(Values(), v, isLeft)..])
    {
      var t := root;
      root := ReplaceAt(root, p, MergeIn(B.At(root, p), v, isTall, isLeft));
      HintedInsert(t, p, v, isTall, isLeft);
      MergeInHeap(t, v, isTall, isLeft);
      MergeInOrdered(t, v, isTall, isLeft);
      MergeInUpperBound(t, v, isTall, isLeft);
      InsertedAt(t, v, isTall, isLeft);
      InsertedUpperBound(t, v, isTall, isLeft);
      q := InsertedPath(t, v, isTall, isLeft);
    }

    /** `insert(value)`: the same as a hinted insert with the end position as the hint, which
        starts the descent at the root. */
    method Insert(v: T) returns (q: B.Path)
      requires Valid()
      modifies this
      ensures root == MergeIn(old(root), v, isTall, isLeft)
      ensures Valid() && B.ValidPath(root, q) && B.At(root, q).value == v
      ensures q == InsertedPath(old(root), v, isTall, isLeft)
      ensures B.InIndex(root, q, Left) == old(UpperBound(Values(), v, isLeft))
      ensures Values() == old(Values()[..UpperBound(Values(), v, isLeft)] + [v] + Values()[UpperBound(Values(), v, isLeft)..])
    {
      q := InsertHinted(None, v);
    }

    /** `insert(pos, value)`: the hint is taken when it lies on the new value's insertion path
        and ignored otherwise; either way the tree becomes the merge from the root. */
    method InsertHinted(hint: Option<B.Path>, v: T) returns (q: B.Path)
      requires Valid()
      modifies this
      ensures root == MergeIn(old(root), v, isTall, isLeft)
      ensures Valid() && B.ValidPath(root, q) && B.At(root, q).value == v
      ensures q == InsertedPath(old(root), v, isTall, isLeft)
      ensures B.InIndex(root, q, Left) == old(UpperBound(Values(), v, isLeft))
      ensures Values() == old(Values()[..UpperBound(Values(), v, isLeft)] + [v] + Values()[UpperBound(Values(), v, isLeft)..])
    {
      if hint.Some? && B.IsPrefix(hint.value, InsertedPath(root, v, isTall, isLeft)) {
        q := InsertAt(hint.value, v);
      } else {
        assert B.IsPrefix([], InsertedPath(root, v, isTall, isLeft));
        q := InsertAt([], v);
      }
    }

    /** Inserting a value and then erasing at the position the insert answers leaves the
        values as they were. */
    method InsertThenErase(v: T)
      requires Valid()
      modifies this
      ensures Valid() && Values() == old(Values())
    {
      ghost var s0 := Values();
      var q := Insert(v);
      ghost var s1, k := Values(), B.InIndex(root, q, Left);
      EraseAt(q);
      InsertDrop(s0, s1, Values(), k, v);
    }

    /** The private erase helper: the node at `p` leaves, and its slot receives the merge of
        its two children. The in-order sequence loses exactly that node's value. */
    method EraseAt(p: B.Path)
      requires Valid() && B.ValidPath(root, p)
      modifies this
      ensures root == EraseSlot(old(root), p, isTall)
      ensures Valid()
      ensures forall w :: old(B.InIndex(root, p, w)) < old(|B.InOrder(root, w)|)
      ensures forall w :: (B.InOrder(root, w)
        == old(B.InOrder(root, w)[..B.InIndex(root, p, w)] + B.InOrder(root, w)[B.InIndex(root, p, w) + 1..]))
    {
      EraseSlotKeeps(root, p, isTall, isLeft);
      var n := B.At(root, p);
      root := ReplaceAt(root, p, Join(n.left, n.right, isTall));
    }

    /** Erases the value at index `i` of the in-order sequence leaning toward `wing`. */
    method EraseIndex(wing: Side, i: nat)
      requires Valid() && i < B.Size(root)
      modifies this
      ensures Valid()
      ensures B.InOrder(root, wing) == old(B.InOrder(root, wing)[..i] + B.InOrder(root, wing)[i + 1..])
    {
      var p := B.InPathAt(root, wing, i);
      EraseAt(p);
    }

    /** Erases the values at indices `i` to `j` of the in-order sequence leaning toward `wing`,
        one at a time, always at index `i`. */
    method EraseIndices(wing: Side, i: nat, j: nat)
      requires Valid() && i <= j <= B.Size(root)
      modifies this
      ensures Valid()
      ensures B.InOrder(root, wing) == old(B.InOrder(root, wing)[..i] + B.InOrder(root, wing)[j..])
    {
      ghost var s0 := B.InOrder(root, wing);
      var n := 0;
      while n < j - i
        invariant Valid() && 0 <= n <= j - i && j <= |s0|
        invariant B.InOrder(root, wing) == s0[..i] + s0[i + n..]
        decreases j - i - n
      {
        ghost var cur := B.InOrder(root, wing);
        DropOne(s0, cur, i, n);
        EraseIndex(wing, i);
        assert B.InOrder(root, wing) == s0[..i] + s0[i + n + 1..];
        n := n + 1;
      }
      assert s0[i + n..] == s0[j..];
    }

    /** `erase(first, last)` over the traversal of `order` leaning toward `wing`: removes the
        values at the indices of `EraseRange`, running to the end when `last` is not reachable
        from `first`. In-order, the rest keep their order; in pre-order only a range of at most
        one value is defined, and that value leaves the key order. */
    method Erase(order: Order, wing: Side, first: Option<B.Path>, last: Option<B.Path>)
      requires Valid()
      requires first.Some? ==> B.ValidPath(root, first.value)
      requires last.Some? ==> B.ValidPath(root, last.value)
      requires order == Pre ==> EraseRange(root, order, wing, first, last).1 <= EraseRange(root, order, wing, first, last).0 + 1
      modifies this
      ensures Valid()
      ensures order == In ==>
        var (i, j) := old(EraseRange(root, order, wing, first, last));
        B.InOrder(root, wing) == old(B.InOrder(root, wing)[..i] + B.InOrder(root, wing)[j..])
      ensures order == In && old(Reachable(Positions(root, order, wing), first, last)) ==>
        B.InOrder(root, wing) == old(B.InOrder(root, wing)[..IndexOf(root, order, wing, first)]
                                     + B.InOrder(root, wing)[IndexOf(root, order, wing, last)..])
      ensures order == In && !old(Reachable(Positions(root, order, wing), first, last)) ==>
        B.InOrder(root, wing) == old(B.InOrder(root, wing)[..IndexOf(root, order, wing, first)])
      ensures order == Pre && old(EraseRange(root, order, wing, first, last)).0 == old(EraseRange(root, order, wing, first, last)).1 ==>
        root == old(root)
      ensures order == Pre && old(EraseRange(root, order, wing, first, last)).0 < old(EraseRange(root, order, wing, first, last)).1 ==>
        first.Some? && old(B.ValidPath(root, first.value))
        && old(B.InIndex(root, first.value, Left)) < old(|Values()|)
        && old(B.PreOrder(root, wing)[EraseRange(root, order, wing, first, last).0]) == old(Values()[B.InIndex(root, first.value, Left)])
        && Values() == old(Values()[..B.InIndex(root, first.value, Left)] + Values()[B.InIndex(root, first.value, Left) + 1..])
    {
      ghost var s0 := B.InOrder(root, wing);
      ghost var reach := Reachable(Positions(root, order, wing), first, last);
      ghost var k := IndexOf(root, order, wing, last);
      var (i, j) := EraseRange(root, order, wing, first, last);
      assert if reach then j == k else j == |s0|;
      if order == In {
        EraseIndices(wing, i, j);
        if !reach {
          assert s0[..i] + s0[j..] == s0[..i];
        }
      } else if i < j {
        B.PreIndexed(root, first.value, wing);
        B.InIndexed(root, first.value, Left);
        EraseAt(first.value);
      }
    }
  }
}
