# predicate_tree: a verified model of the tree navigation and the treap container

This project models three parts of the `predicate_tree` C++ library in Dafny and proves the
behaviour their code and comments promise.

- **Iterators over `raw_tree`** (`include/tree/raw_tree_iterator.hh`).
  - `raw_tree` is a binary tree whose nodes own their two children and point back at their
    parent. It is modelled as an arena (`RawTree.Raw`): a map from node identities to nodes
    with optional child and parent links, plus the root's identity.
  - A valid arena is one whose links describe a finite binary tree. Its ghost *shape* (a
    `BinaryTree.Tree` of identities) fixes the pre-order and in-order sequences for either
    wing (`BinaryTree.PreOrder`, `BinaryTree.InOrder`).
  - The iterator is a class whose `node` field is updated step by step. The pre-order and
    in-order steps climb parent links in loops, exactly as the source does, and are proved
    to move to the successor of the current node in the traversal sequence.
  - `Walk` proves that stepping from the constructed position visits the whole traversal,
    each node once, and then reaches the end.
- **The accessor** (`include/tree/accessor.h`).
  - It is a class holding a node and a signed depth. Depth 0 is the root; depth -1 is the
    end, and the node is then the root.
  - The invariant "depth is the number of parent links up to the root" is established by
    the checked constructor and kept by `Up`, `Root` and `Down`.
  - The lowest common ancestor is computed by a climb-and-lock-step algorithm (the deeper
    accessor climbs to the other's depth, then both climb together until they meet)
    and proved to be the longest common prefix of the two root paths.
- **The `tree` container** (`include/tree/tree.h`), a treap ordered by two caller-supplied
  predicates.
  - `isTall` decides heap order and `isLeft` decides key order; both default to
    `indifferent`.
  - The tree is modelled as a class owning a `BinaryTree.Tree` value. Positions are paths
    from the root, and the end position is `None`.
  - The header shows only declarations and comments. The merge is therefore written here to
    meet them: `Split`, `MergeIn` (single-value insertion merge) and `Join` (merge of the
    two children of an erased node).
  - Proved properties:
    - insertion adds exactly one occurrence of the value, at the upper bound of its key in
      the sorted value sequence;
    - heap order and key order are kept by insertion and erasure;
    - a hint is taken only where it agrees with an unhinted insertion;
    - `erase(first, last)` removes exactly the traversal range, falling back to the end
      when `last` is not reachable from `first` by `++`;
    - `insert` answers the position of the new node itself, at the upper bound, so
      erasing at that position restores the old sequence.

Modules: `Sides` (sides, orders, `Other`), `Wrappers` (`Option`), `BinaryTree` (trees as
values, paths, traversals and where each subtree sits in them), `RawTree` (the arena),
`RawTreeIterator`, `Accessor`, `Treap` (the merge algorithms and their lemmas) and
`TreeContainer` (the `tree` class).

## Model

| member | source | states |
|---|---|---|
| `Sides.Other` | include/tree/raw_tree_iterator.hh:1-8 | the result differs from the argument and is `Right` exactly when the argument is `Left`, so `other` swaps the two sides and is an involution |
| `RawTreeIterator.WingMost` | include/tree/raw_tree_iterator.hh:15-18 | following `wing` children from `n` ends at a node without a `wing` child, reached from `n` through `wing` steps only, and that node is the first of `n`'s subtree in the in-order traversal leaning toward `wing` |
| `RawTreeIterator.Iterator.constructor` | include/tree/raw_tree_iterator.hh:10-19 | a pre-order iterator starts at the root; an in-order iterator starts at a node without a `wing` child, reached from the root through `wing` children only; either way the node is the first of the traversal |
| `RawTreeIterator.Iterator.Convert` | include/tree/raw_tree_iterator.hh:21-26 | a cross-variant copy takes over the tree and the node and nothing else |
| `RawTreeIterator.Iterator.Equals` | include/tree/raw_tree_iterator.hh:28-33 | two iterators are equal exactly when they point at the same node (or are both at the end) |
| `RawTreeIterator.Iterator.NotEquals` | include/tree/raw_tree_iterator.hh:35-40 | two iterators differ exactly when their nodes differ |
| `RawTreeIterator.Iterator.Increment` | include/tree/raw_tree_iterator.hh:48-55 | `++` moves to the successor of the current node in the iterator's traversal, to the end after the last node, and leaves the end at the end |
| `RawTreeIterator.Iterator.PostIncrement` | include/tree/raw_tree_iterator.hh:57-64 | `++(int)` returns a new iterator at the old position and advances this one exactly like `++` |
| `RawTreeIterator.Iterator.PreorderIncrement` | include/tree/raw_tree_iterator.hh:66-87 | the pre-order step (down to the `wing` child, or up to the first ancestor with an unvisited other child) lands on the pre-order successor of the old node, on the end after the last node, and is a no-op at the end |
| `RawTreeIterator.Iterator.InorderIncrement` | include/tree/raw_tree_iterator.hh:89-109 | the in-order step (into the other child and down its `wing` children, or up to the first ancestor entered from its `wing` side) lands on the in-order successor, on the end after the last node, and is a no-op at the end |
| `RawTreeIterator.Walk` | include/tree/raw_tree_iterator.hh:48-109 | incrementing from the constructed iterator until the end visits exactly the traversal sequence, each node once |
| `BinaryTree.PreClimb` | include/tree/raw_tree_iterator.hh:79-86 | climbing out of a `wing` slot, the other child's pre-order block starts where the slot's block ends; otherwise the parent's block ends where the slot's block ends, so climbing on is right |
| `BinaryTree.InClimb` | include/tree/raw_tree_iterator.hh:104-108 | climbing out of a `wing` slot, the parent comes right after the slot's block in order; climbing out of the other slot, the parent's block ends where the slot's block ends |
| `BinaryTree.PreSuccessor` | include/tree/raw_tree_iterator.hh:74-86 | the node whose pre-order index is one more is the successor in the pre-order sequence |
| `BinaryTree.PreSuccessorLast` | include/tree/raw_tree_iterator.hh:79-86 | the node at the last pre-order index has no successor: the step ends at the end |
| `BinaryTree.InSuccessor` | include/tree/raw_tree_iterator.hh:97-108 | the node whose in-order index is one more is the successor in the in-order sequence |
| `BinaryTree.InSuccessorLast` | include/tree/raw_tree_iterator.hh:104-108 | the node at the last in-order index has no successor |
| `BinaryTree.PreBlock` | include/tree/raw_tree_iterator.hh:68-87 | the pre-order sequence of every subtree is the slice of the whole pre-order sequence starting at the subtree's offset |
| `BinaryTree.InBlock` | include/tree/raw_tree_iterator.hh:91-109 | the in-order sequence of every subtree is the slice of the whole in-order sequence starting at the subtree's offset |
| `BinaryTree.PreIndexed` | include/tree/raw_tree_iterator.hh:68-87 | the node at a path sits at its pre-order offset in the pre-order sequence |
| `BinaryTree.InIndexed` | include/tree/raw_tree_iterator.hh:91-109 | the node at a path sits at its in-order index in the in-order sequence |
| `BinaryTree.PreOrderDistinct` | include/tree/raw_tree_iterator.hh:51-55 | with distinct node identities, the pre-order sequence visits no node twice |
| `BinaryTree.InOrderDistinct` | include/tree/raw_tree_iterator.hh:51-55 | with distinct node identities, the in-order sequence visits no node twice |
| `BinaryTree.PreOrderElems` | include/tree/raw_tree_iterator.hh:51-55 | the pre-order sequence holds exactly the tree's nodes |
| `BinaryTree.InOrderElems` | include/tree/raw_tree_iterator.hh:51-55 | the in-order sequence holds exactly the tree's nodes |
| `RawTree.ClimbToRoot` | include/tree/accessor.h:28-34 | climbing `k` parent links from a node reaches the root exactly when `k` is the node's depth |
| `Accessor.PlacedDepth` | include/tree/accessor.h:28-37 | the constructor's test accepts exactly the node paired with its parent-chain distance to the root, or the root paired with -1 |
| `Accessor.Accessor.constructor` | include/tree/accessor.h:20-44 | an accepted node and depth give a valid accessor holding exactly them (the source aborts otherwise) |
| `Accessor.Accessor.IsRoot` | include/tree/accessor.h:59 | `is_root()` holds exactly at depth 0, which is exactly when the accessor is at the root and not at the end |
| `Accessor.Accessor.Depth` | include/tree/accessor.h:60-62 | `depth()` answers the stored depth: -1 at the end, the parent-chain distance otherwise |
| `Accessor.Accessor.Equals` | include/tree/accessor.h:57 | two accessors of one tree are equal exactly when they hold the same node at the same depth; when neither is at the end that is exactly the same node, and an end accessor never equals a non-end one |
| `Accessor.Accessor.NotEquals` | include/tree/accessor.h:58 | `!=` holds exactly when the node or the depth differs, and between non-end accessors exactly when the nodes differ |
| `Accessor.Accessor.Up` | include/tree/accessor.h:75-80 | `up()` moves to the parent with depth one less; at the root it becomes the end with the node still the root; at the end it does nothing; the depth invariant is kept |
| `Accessor.Accessor.Root` | include/tree/accessor.h:81-86 | `root()` climbs to the root and sets depth 0 |
| `Accessor.Accessor.Down` | include/tree/accessor.h:88-94 | `down(wing)` moves to an existing `wing` child with depth one more and answers true; with no such child it answers false and changes nothing; from the end it moves to the root at depth 0 and answers true |
| `Accessor.DownThenUp` | include/tree/accessor.h:75-94 | `down(wing)` then `up()` brings a non-end accessor with a `wing` child back to the same node and depth |
| `Accessor.Accessor.CommonAncestor` | include/tree/accessor.h:96-100 | the result is the end when either operand is the end; otherwise it is an ancestor of both operands, no deeper node is, its depth is at most both depths, and `a.common_ancestor(a)` is `a` |
| `Accessor.LowestCommon` | include/tree/accessor.h:96-100 | the climb-then-lock-step algorithm ends at the node whose root path is the longest common prefix of the two root paths, at a depth no greater than either, and at `x` itself when both operands are `x` |
| `Accessor.CommonPrefix` | include/tree/accessor.h:96-100 | the common prefix of two root paths is a prefix of both: the node it leads to is an ancestor of both |
| `Accessor.CommonPrefixLongest` | include/tree/accessor.h:96-100 | every path both root paths start with is a prefix of the common prefix: no deeper node is a common ancestor |
| `Accessor.CommonPrefixSelf` | include/tree/accessor.h:96-100 | the lowest common ancestor of a node with itself is that node |
| `Treap.Indifferent` | include/tree/tree.h:13-15 | the default predicate answers false for every pair |
| `Treap.IndifferentStrictWeakOrder` | include/tree/tree.h:13-15 | the default predicate is a strict weak order |
| `TreeContainer.Tree.constructor` | include/tree/tree.h:29-30 | a new tree is empty, keeps the two given predicates, and is valid when both are strict weak orders |
| `TreeContainer.Tree.Default` | include/tree/tree.h:29-30 | with both predicates defaulted, neither ever holds and the empty tree is valid |
| `Treap.DefaultAppends` | include/tree/tree.h:29-30 | with the default predicates, inserting a value appends it to the in-order sequence: the container keeps insertion order |
| `Treap.SplitIndifferent` | include/tree/tree.h:13-15 | with the default key predicate, splitting keeps every value on the left |
| `Treap.Split` | include/tree/tree.h:64-66 | splitting around a value distributes exactly the tree's values over the two halves |
| `Treap.SplitInOrder` | include/tree/tree.h:64-66 | the two halves of a split, read in order one after the other, are the tree's in-order sequence |
| `Treap.SplitPartition` | include/tree/tree.h:35-36 | in a key-ordered tree, the first half holds exactly the values the new value does not belong left of, the second half the others, and both halves stay key-ordered |
| `Treap.SplitHeap` | include/tree/tree.h:35-36 | both halves of a split of a heap-ordered tree are heap-ordered |
| `Treap.MergeIn` | include/tree/tree.h:64-66 | merging a new single-value node into a subtree adds exactly that value to its values |
| `Treap.MergeInInOrder` | include/tree/tree.h:35-36 | the merged value sits between the two halves of the split around it in the in-order sequence |
| `Treap.MergeInUpperBound` | include/tree/tree.h:35-36 | in a key-ordered tree, insertion puts the value into the sorted sequence at its upper bound: after all values it does not belong left of, before the rest |
| `Treap.MergeInOrdered` | include/tree/tree.h:35-36 | insertion keeps key order when `isLeft` is a strict weak order |
| `Treap.MergeInHeap` | include/tree/tree.h:35-36 | insertion keeps heap order when `isTall` is a strict weak order |
| `Treap.OrderedSorted` | include/tree/tree.h:35-36 | a tree is key-ordered exactly when its in-order sequence is sorted by `isLeft` |
| `Treap.UpperBound` | include/tree/tree.h:35-36 | the reference position of a new value in a sorted sequence: every value before it is one the new value does not belong left of, and the value there (if any) is one it does |
| `Treap.HintedInsert` | include/tree/tree.h:37-40 | merging at any slot on the value's own insertion path and writing the result back gives the same tree as merging from the root |
| `Treap.InsertedAt` | include/tree/tree.h:64-66 | the insertion path leads to the new node, which holds the inserted value |
| `Treap.InsertedIndex` | include/tree/tree.h:64-66 | the new node's in-order index is the number of values before it in the split |
| `Treap.InsertedUpperBound` | include/tree/tree.h:40-45 | in a key-ordered tree, the insertion path leads to the new node and that node's in-order index is the upper bound of the value in the old sequence |
| `TreeContainer.Tree.InsertAt` | include/tree/tree.h:64-66 | the insert helper overwrites the slot with the merge of its subtree and the new node; the result is the merge from the root and stays valid; the answered position is the insertion path of the new node itself (not an older node holding an equal value), at in-order index equal to the value's old upper bound, where the value is inserted |
| `TreeContainer.Tree.InsertHinted` | include/tree/tree.h:37-40 | a hint on the value's insertion path is used and any other hint is ignored; either way the tree becomes the merge from the root, stays valid, gains the value at its upper bound, and the answered position is the new node's, at that index |
| `TreeContainer.Tree.Insert` | include/tree/tree.h:41-42 | `insert(value)` is `insert(end, value)`: the same tree, sequence and answered position (the new node's, at the value's upper bound) as a hinted insert |
| `TreeContainer.Tree.InsertThenErase` | include/tree/tree.h:40-70 | `insert` followed by the erase helper at the position `insert` answers leaves the values exactly as they were |
| `Treap.Join` | include/tree/tree.h:68-70 | merging the two children of an erased node keeps exactly their values |
| `Treap.JoinInOrder` | include/tree/tree.h:68-70 | the merged children read in order as the left child's sequence followed by the right child's, for either wing |
| `Treap.JoinOrdered` | include/tree/tree.h:68-70 | merging two key-ordered trees, the first entirely left of the second, is key-ordered |
| `Treap.JoinHeap` | include/tree/tree.h:68-70 | merging two heap-ordered trees is heap-ordered |
| `Treap.ReplaceInOrder` | include/tree/tree.h:68-70 | rewriting a slot replaces exactly that slot's block of the in-order sequence and keeps the values before and after it |
| `Treap.ReplaceElems` | include/tree/tree.h:68-70 | rewriting a slot with a subtree of some of its own values keeps the tree's values within the old ones |
| `Treap.ReplaceHeap` | include/tree/tree.h:68-70 | rewriting a slot of a heap-ordered tree with a heap-ordered subtree of its values keeps heap order |
| `Treap.ReplaceOrdered` | include/tree/tree.h:68-70 | rewriting a slot of a key-ordered tree with a key-ordered subtree of its values keeps key order |
| `Treap.EraseSlotInOrder` | include/tree/tree.h:68-70 | erasing the node at a path removes exactly its value, at its in-order index, from the in-order sequence of either wing |
| `Treap.EraseSlotHeap` | include/tree/tree.h:68-70 | erasing a node keeps heap order |
| `Treap.EraseSlotOrdered` | include/tree/tree.h:68-70 | erasing a node keeps key order |
| `Treap.EraseSlotKeeps` | include/tree/tree.h:68-70 | erasing a node keeps both orders and removes exactly its value from every in-order sequence |
| `Treap.InsertEraseInOrder` | include/tree/tree.h:64-70 | inserting a value and then erasing the node it landed in restores the previous in-order sequence |
| `TreeContainer.Tree.EraseAt` | include/tree/tree.h:68-70 | the erase helper writes the merge of the node's children into its slot, keeps the tree valid, and removes exactly the node's value at its in-order index |
| `TreeContainer.IndexOf` | include/tree/tree.h:47-51 | a position's index in the traversal is within the tree's size, equals the size exactly for the end position, and for a node is the index at which the traversal holds that node's value |
| `TreeContainer.PathAt` | include/tree/tree.h:47-51 | the position at a traversal index is a node of the tree whose index is that index |
| `TreeContainer.Positions` | include/tree/tree.h:47-51 | the sequence of positions `++` steps through from `begin()`: one per node, each at its own traversal index |
| `TreeContainer.PositionAt` | include/tree/tree.h:47-51 | every position of the tree is the entry of that sequence at its own index |
| `BinaryTree.PreOffsetInjective` | include/tree/tree.h:47-51 | two nodes at the same pre-order index are the same node |
| `BinaryTree.InIndexInjective` | include/tree/tree.h:47-51 | two nodes at the same in-order index are the same node |
| `TreeContainer.AdvanceAt` | include/tree/tree.h:50-51 | on a traversal without repeats, `k` increments from index `i` reach index `i + k`, or the end once that passes the last element |
| `TreeContainer.ReachableIndices` | include/tree/tree.h:50-51 | on a traversal without repeats, the element at `j` is reachable by `++` from the one at `i` exactly when `i <= j` |
| `TreeContainer.ReachableEnd` | include/tree/tree.h:50-51 | the end is reachable from every element and from the end, and no element is reachable from the end |
| `TreeContainer.PositionsReachable` | include/tree/tree.h:50-51 | `last` is reachable from `first` by `++` exactly when `last`'s traversal index is not below `first`'s |
| `TreeContainer.EraseRange` | include/tree/tree.h:47-51 | the erased index range starts at `first`'s index; it ends at `last`'s index when `last` is reachable from `first` by `++`, and at the end otherwise |
| `TreeContainer.Tree.EraseIndex` | include/tree/tree.h:47-51 | erasing at an in-order index removes exactly the value there and keeps the tree valid |
| `TreeContainer.Tree.EraseIndices` | include/tree/tree.h:47-51 | erasing the in-order range `[i, j)` removes exactly those values and keeps the rest in order |
| `TreeContainer.Tree.Erase` | include/tree/tree.h:47-59 | in-order, `erase(first, last)` removes exactly the values from `first` up to `last` when `last` is reachable from `first` by `++`, and every value from `first` through the end when it is not; in pre-order only empty and single-value ranges are accepted: an empty range changes nothing, a single one removes exactly that value |

## Left out

- Post-order (`traversal_order::post`, include/tree/tree.h:5) has no increment in the source and is not modelled.
- Memory ownership (`std::unique_ptr`, raw pointers, `std::exchange`) is replaced by arena identities and tree values.
- `std::abort` in the accessor constructor is modelled as a precondition (`Placed`).
- Accessor.Accessor.Depth: the depth is an unbounded integer. The `int16_t` width and the `uint32_t` reinterpretation of -1 in `depth()` are not modelled.
- The end iterator does not restart at the root; the in-code TODOs ask for that, but the current code is a no-op, and so is the model.
- Iterators are built from the tree's root only. Iterators or accessors ranging over a subtree are not modelled.
- Stale accessors and iterators after the tree is reshaped, and multi-element pre-order erase ranges, are undefined in the source. The first is out of scope; the second is excluded by a precondition of `Erase`.
- Dereference, `operator bool`, `operator->`, `node()` and the `const_accessor` alias are boilerplate and are not modelled.
- `std::function` predicates are function-typed fields. The strict weak order the source requires and never checks is a precondition.
- accessor.hh, tree.hh, node.h and iterator.h are not part of this model.
  - The merge, split and join are written to meet the header comments.
  - Their tie rules are choices of this model: a new value goes right of the values it does not belong left of, and on erase the left child stays on top unless the right one is taller.
  - Accessor equality compares the node and the depth, since accessor.hh is not modelled.
  - The test that decides whether a hint is wrong is also a choice. A hint is taken when it lies on the new value's insertion path, which is where taking it cannot change the result.
- Positions of the `tree` container are root paths rather than iterator objects of the treap, whose class (iterator.h) is not part of this model. `begin()` and `end()` are represented by traversal indices and the `None` position.
- The iterator returned by `erase(first, last)` is not modelled. `insert` returns the new node's path.
- The `const T &` insert overloads behave as the `T &&` ones and are not modelled separately.
- TreeContainer.Tree.Erase: in-order ranges are erased one value at a time at the range's first index. The source's own loop (tree.hh) is not part of this model, so the contract states the resulting sequence, not the order of node removals.
