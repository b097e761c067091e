# LinkedBST in Dafny

This project models the `LinkedBST` class of `task2/task2.py`, a linked
binary search tree of integers, and proves properties of the model. The
class keeps a root pointer and a size counter. Its operations are:

- `find` and `__contains__`: three-way search;
- `add`: insert at a leaf, duplicates going right;
- `remove`: delete with a sentinel parent, lifting the left maximum;
- `replace`: overwrite an item in place;
- `height`: a spine-only count;
- `range_find`: enumerate the integers in a range and search for each;
- `new_tree` and `rebalance`: midpoint rebuild from the in-order list;
- `successor` and `predecessor`: scans of the in-order list;
- `__iter__`: a node count by explicit stack;
- `inorder` and `clear`.

Nodes are the immutable datatype `Tree = Leaf | Node(left, data, right)`.
Every mutator is a function from the old tree or collection to the new one.

Modules:

- `Wrappers` (wrappers.dfy): `Option` and `Result`.
- `Nodes` (nodes.dfy): the tree, its node count, multiset contents and in-order reading. It also holds the ordering invariants and their link to sortedness.
- `Search` (search.dfy): `find`, `__contains__`, `range_find`, `successor` and `predecessor`.
- `Insert` (insert.dfy): the descent of `add`.
- `Delete` (delete.dfy): the descent of `remove`, including `liftMaxInLeftSubtreeToTop`.
- `Replace` (replace.dfy): `replace`.
- `Height` (height.dfy): `height()` and the true recursive height.
- `Rebuild` (rebuild.dfy): `new_tree`. The work list's inclusive index range `first .. last` is written as the slice `a[first..last + 1]`. Its midpoint `(first + last) // 2` is then index `(len - 1) // 2` of the slice.
- `LinkedBst` (linked_bst.dfy): the collection record `BST(root, size)`. It holds `clear`, `add`, `remove`, `__iter__`, `rebalance`, the constructor, and the properties that relate these operations to each other.

The ordering invariant used is the non-strict one: left items ≤ node ≤ right
items. The comments in `add` (task2/task2.py:113, 119-120) send a smaller
item left and a greater or equal item right, so a tree built by `add` alone
keeps left items strictly smaller (`Insert.AddKeepsStrictOrdered`).
`remove` does not keep that, because the lifted left maximum can equal an
item left below it (`LinkedBst.RemoveBreaksStrictOrder`). Only the
non-strict invariant holds under every operation.

Four behaviours of the code are worth stating, because the docstrings
suggest otherwise:

- **`rebalance` and item multiplicities.** The docstring of `rebalance` (task2/task2.py:309) says only "Rebalances the tree.", which suggests the same items come back. The code loses one item and doubles another whenever the count is even and the two middle items of the in-order list differ (`Rebuild.NewTreeEvenLosesMiddle`). When the two middle items are equal, or the count is odd (`Rebuild.NewTreeOdd`), the items come back unchanged.
- **`rebalance` and the size counter.** The code also leaves the size counter at 0 (see Findings).
- **`remove` then `find`.** The docstring of `remove` (task2/task2.py:138) gives the postcondition "item is removed from self". The code removes one copy. A later `find` of the same item still hits when two or more copies were stored (`LinkedBst.RemoveThenContains`).
- **The empty test in `add` and `remove`.** `add` and `remove` test emptiness on the counter, not on the root. After `rebalance`, `add` discards the tree and `remove` of a present item returns `None` and does nothing.

The `isEmpty()` test comes from the base collection, which is not part of
this model. The model takes it to be `size == 0`. The constructor is taken
to start from an empty tree with size 0 and `add` the source items in order.

## Model

| member | source | states |
|---|---|---|
| Nodes.Inorder | task2/task2.py:61-72 | the in-order list has one entry per node |
| Nodes.InorderContents | task2/task2.py:61-72 | the in-order list holds exactly the stored items, with their multiplicities |
| Nodes.OrderedIffSorted | task2/task2.py:61-72 | a tree keeps the ordering invariant if and only if its in-order list is non-decreasing |
| Nodes.StrictOrderedIsOrdered | task2/task2.py:108-133 | the strict invariant (left items smaller) implies the non-strict one |
| Search.Find | task2/task2.py:86-100 | a hit returns an item equal to the key that is stored in the tree; on an ordered tree every stored key is found |
| Search.Contains | task2/task2.py:82-84 | membership is sound on any tree, and on an ordered tree it holds exactly for stored items |
| Search.RangeFind | task2/task2.py:263-274 | the result holds exactly the integers in [low, high] that `find` hits, in strictly increasing order; on an ordered tree these are the stored ones |
| Search.SeqMin | task2/task2.py:317-332 | `min` returns a member of the list that no member is below |
| Search.SeqMax | task2/task2.py:334-349 | `max` returns a member of the list that no member is above |
| Search.Successor | task2/task2.py:317-332 | `None` exactly when no stored item exceeds x; otherwise a stored item above x with no stored item strictly between x and it |
| Search.Predecessor | task2/task2.py:334-349 | `None` exactly when no stored item is below x; otherwise a stored item below x with no stored item strictly between it and x |
| Insert.AddTree | task2/task2.py:108-127 | the descent fills exactly one empty child slot with a new leaf holding x and leaves every other node in place |
| Insert.AddContents | task2/task2.py:108-127 | insertion stores one more copy of x and loses nothing |
| Insert.AddKeepsOrdered | task2/task2.py:108-127 | insertion keeps the non-strict ordering invariant |
| Insert.AddKeepsStrictOrdered | task2/task2.py:108-127 | insertion keeps the strict invariant too, because equal items go right |
| Insert.AddInorder | task2/task2.py:108-127 | the in-order list gains x at one position and is otherwise unchanged |
| Insert.AddPositionSplits | task2/task2.py:108-127 | on an ordered tree, x lands after every item ≤ x and before every item > x, so it lands after earlier equal items |
| Delete.RemoveMax | task2/task2.py:143-158 | the lifted item is stored in the left subtree, and the subtree loses exactly one node |
| Delete.RemoveMaxInorder | task2/task2.py:143-158 | the lifted item is the last in-order item, and the rest keep their order |
| Delete.RemoveMaxContents | task2/task2.py:143-158 | lifting removes exactly one copy of the lifted item |
| Delete.RemoveMaxIsMax | task2/task2.py:143-158 | on an ordered subtree the lifted item is its maximum, and the rest stays ordered |
| Delete.RemoveTree | task2/task2.py:163-208 | a missed descent changes nothing; a hit loses exactly one node |
| Delete.RemoveContents | task2/task2.py:163-208 | a hit removes exactly one copy of the item and nothing else |
| Delete.RemoveShrinks | task2/task2.py:163-208 | deletion never adds an item |
| Delete.LiftKeepsOrdered | task2/task2.py:187-190 | overwriting a two-child node with its left maximum keeps the order |
| Delete.RemoveKeepsOrdered | task2/task2.py:163-208 | deletion keeps the non-strict ordering invariant |
| Replace.ReplaceTree | task2/task2.py:220-234 | the shape is kept, the old item is what `find` returns, and a miss changes nothing |
| Replace.ReplaceOneSlot | task2/task2.py:220-234 | on a hit exactly one in-order slot changes, from x to the new item |
| Replace.ReplaceCanBreakOrder | task2/task2.py:220-234 | replacing a left item with a larger one breaks the ordering invariant, so keeping it is the caller's job |
| Height.TrueHeight | task2/task2.py:236-260 | the recursive height is -1 exactly for the empty tree |
| Height.PathsWithinHeight | task2/task2.py:236-240 | no downward path from the root has more links than the recursive height |
| Height.LongestPath | task2/task2.py:236-240 | some downward path from a non-empty root has exactly as many links as the recursive height, so that height is the height the docstring promises |
| Height.HeightBelowCount | task2/task2.py:236-260 | the recursive height is below the node count |
| Height.SpinesWithinHeight | task2/task2.py:250-255 | neither spine is longer than the tree is high |
| Height.SpineHeight | task2/task2.py:236-260 | what `height()` reports: -1 exactly for the empty tree, 0 for a single node, and never more than the true height |
| Height.Height | task2/task2.py:241-259 | the two counting loops compute the larger of the left child's left spine and the right child's right spine, which is at most the true height |
| Height.CountBelowPow2 | task2/task2.py:236-260 | a tree of true height h holds fewer than 2^(h+1) nodes |
| Height.SpineHeightUndercounts | task2/task2.py:236-260 | on a tree whose left child has a right branch, `height()` reports 1 while the true height is 3 |
| Rebuild.Log2 | task2/task2.py:290-304 | floor of log2: 2^r ≤ n < 2^(r+1) |
| Rebuild.Build | task2/task2.py:294-303 | the work-list subtree of a range is empty exactly for an empty range |
| Rebuild.BuildInorder | task2/task2.py:294-303 | the midpoint construction reads its range back in order |
| Rebuild.BuildHeight | task2/task2.py:294-303 | a range of m items gets height floor(log2 m) |
| Rebuild.BuildRightSpine | task2/task2.py:294-303 | the right spine of a midpoint tree is one node longer than its height |
| Rebuild.BuildSpineHeight | task2/task2.py:294-303 | on a midpoint tree `height()` equals the true height |
| Rebuild.NewTree | task2/task2.py:290-304 | an empty list gives no root |
| Rebuild.NewTreeRoot | task2/task2.py:293-294 | `new_tree` differs from the midpoint tree only in the root's item, taken from index n // 2 |
| Rebuild.NewTreeInorder | task2/task2.py:290-304 | `new_tree` reads back the input with slot (n-1)//2 overwritten by the item at n//2 |
| Rebuild.NewTreeCount | task2/task2.py:290-304 | `new_tree` has one node per list entry |
| Rebuild.NewTreeOdd | task2/task2.py:290-304 | for an odd count the list is read back exactly |
| Rebuild.NewTreeEvenLosesMiddle | task2/task2.py:293 | for an even count of distinct items, the item at (n-1)//2 is lost and the item at n//2 is stored twice |
| Rebuild.NewTreeOrdered | task2/task2.py:290-304 | a sorted list gives an ordered tree, even for an even count |
| Rebuild.NewTreeHeight | task2/task2.py:290-304 | n ≥ 1 items give height floor(log2 n), both truly and as `height()` counts it |
| Rebuild.NewTreeIdempotent | task2/task2.py:290-304 | building again from the tree's in-order list gives the same tree |
| Rebuild.MidpointTree | task2/task2.py:290-304 | the intended construction reads the list back exactly |
| Rebuild.NewTreeRootCounterexample | task2/task2.py:293 | [1, 2] becomes a tree that reads [2, 2]; the midpoint tree reads [1, 2] |
| LinkedBst.Clear | task2/task2.py:103-106 | the cleared collection is empty, consistent and stores nothing |
| LinkedBst.Add | task2/task2.py:108-133 | the counter goes up by one; an empty counter leaves only x stored; `find` then hits x |
| LinkedBst.AddThenFind | task2/task2.py:108-133 | on any tree, `find` reaches the item `add` just inserted |
| LinkedBst.AddValid | task2/task2.py:108-133 | on a consistent collection, `add` stores one more x and keeps the counter and the order consistent |
| LinkedBst.FromList | task2/task2.py:18-22 | the constructor counts one item per list entry |
| LinkedBst.FromListValid | task2/task2.py:18-22 | the constructor gives a consistent collection storing exactly the list's items |
| LinkedBst.FromListSorts | task2/task2.py:18-22 | the in-order list of a constructed collection is a sorted permutation of the input |
| LinkedBst.Remove | task2/task2.py:135-218 | `KeyError` exactly when `find` misses; the error and the `None` return change nothing; a returned item is x and the counter drops by one |
| LinkedBst.RemoveValid | task2/task2.py:135-218 | on a consistent collection, `KeyError` is raised exactly for unstored items; a stored x is returned, one copy removed, and the collection stays consistent |
| LinkedBst.RemoveThenContains | task2/task2.py:135-218 | after removing a stored x, x is still found exactly when at least two copies were stored |
| LinkedBst.RemoveThenAdd | task2/task2.py:108-218 | remove then add of a stored item restores the stored items |
| LinkedBst.TenFiveTwelveFive | task2/task2.py:108-133 | adding 10, 5, 12, 5 builds the tree 10(5(-, 5), 12) |
| LinkedBst.RemoveBreaksStrictOrder | task2/task2.py:187-190 | removing 10 from that strictly ordered tree leaves a 5 on the left of an equal 5 |
| LinkedBst.CountNodes | task2/task2.py:40-55 | `__iter__` returns 0 for an empty counter and otherwise the node count, which is the counter on a consistent collection |
| LinkedBst.Rebalance | task2/task2.py:307-315 | the counter is 0 afterwards, and there is a root exactly when there was one before |
| LinkedBst.RebalanceShape | task2/task2.py:307-315 | on a consistent non-empty collection, the new tree has as many nodes as before, is ordered, and has height floor(log2 n) by either measure |
| LinkedBst.RebalanceIdempotent | task2/task2.py:307-315 | rebalancing twice equals rebalancing once |
| LinkedBst.RebalanceThenAdd | task2/task2.py:307-315 | after `rebalance`, `add` replaces the whole tree with a single node |
| LinkedBst.RebalanceThenRemove | task2/task2.py:161 | after `rebalance`, removing an item that `find` hits returns `None` and changes nothing |
| LinkedBst.RebalanceKeepingSize | task2/task2.py:307-315 | the intended rebalance keeps the in-order list and consistency, with height floor(log2 n) |
| LinkedBst.RebalanceKeepingSizeThenAdd | task2/task2.py:307-315 | after the intended rebalance, `add` keeps every item |
| LinkedBst.RebalanceThenAddLosesItems | task2/task2.py:312-314 | a consistent collection of 1, 2, 3, rebalanced and then given 4, stores only 4 |
| LinkedBst.RebalanceKeepingSizeKeepsItems | task2/task2.py:312-314 | the same sequence with the intended rebalance stores 1, 2, 3, 4 |
| LinkedBst.FiveThreeEightOneFour | task2/task2.py:108-133 | adding 5, 3, 8, 1, 4 builds 5(3(1, 4), 8) |
| LinkedBst.FiveItemReading | task2/task2.py:61-72 | that tree reads 1, 3, 4, 5, 8, and `height()` reports 2 |
| LinkedBst.FiveItemValid | task2/task2.py:18-22 | that tree is a consistent collection |
| LinkedBst.FiveItemRemove | task2/task2.py:135-218 | removing 3 lifts 1 into its place, leaves 4 items, and 3 is then not found |
| LinkedBst.FiveItemRebalance | task2/task2.py:307-315 | rebalancing the five items gives a tree that `height()` reports as 2 high |

## Left out

- `is_balanced` (task2/task2.py:277-287) compares against a floating-point natural logarithm. Floating point is not modelled.
- `__str__` (task2/task2.py:25-38) only formats text.
- `preorder`, `postorder` and `levelorder` (task2/task2.py:57-80) are stubs that return `None`.
- `demo_bst`, `first`, `second`, `third` and `fourth` (task2/task2.py:352-412) are a benchmark driver. They read files, use the clock and use randomness.
- The base collection, the node class and the linked stack and queue classes are not part of this model. The stack of `__iter__` is a Dafny sequence. `isEmpty()` is assumed to test `size == 0`. `__init__` is assumed to add the source items in order.
- Items are integers. The source accepts any comparable items, but `range_find` only makes sense for integers.
- `inorder` returns a Python iterator over a list. The model returns the list.
- `remove` has a second "not found" return (task2/task2.py:183). It is not modelled: the descent is the same as `find`'s, so once `__contains__` has passed it always finds the node.
- Pointer identity, in-place mutation and the sentinel node of `remove` are modelled by returning rebuilt trees. The sentinel becomes the value returned for the root.
- LinkedBst.Add: with a non-zero counter and no root the source calls its helper on `None` and fails reading `node.data` (task2/task2.py:114, 132). The model instead grows a one-node tree and keeps the counter. No state reached through the constructor, `add`, `remove` or `rebalance` has this shape: the first two keep the counter equal to the node count, and `rebalance` leaves the counter at 0.
- Python's recursion limit is not modelled. The nested helpers of `add` (task2/task2.py:112-124), `find` (task2/task2.py:90-98) and `inorder` (task2/task2.py:65-69) recurse once per level, so the source raises `RecursionError` on a tree about 1000 levels deep, which `add` builds from sorted input. Dafny functions have no depth limit, so the model returns a result there.
- LinkedBst.CountNodes: requires that an empty tree has a zero counter. With a non-zero counter and no root, the source reads a child of a missing node and fails.
- Search.Find: on a tree that breaks the ordering invariant, the contract only says a hit is a stored item equal to the key. It does not say which stored keys the descent misses.

## Findings

| source | as written | input that shows it | evidently intended | confidence | as-written member | corrected member |
|---|---|---|---|---|---|---|
| task2/task2.py:293 | the root of `new_tree` holds `result[len // 2]`, but its subtrees come from the midpoint `(len - 1) // 2` of the range `0 .. len-1` | `[1, 2]` gives a tree that reads `[2, 2]` | the root holds `result[(len - 1) // 2]`, so the list is read back exactly | high (not executed) | Rebuild.NewTreeRootCounterexample | Rebuild.MidpointTree |
| task2/task2.py:241-259 | `height()` counts only the left spine of the left child and the right spine of the right child | tree 10(5(-, 7(-, 8)), -): reports 1, true height 3 | the recursive height, as the docstring "Return the height of tree" says | high (not executed) | Height.SpineHeightUndercounts | Height.TrueHeight |
| task2/task2.py:312-314 | `rebalance` calls `clear`, which sets the counter to 0, and never restores it, so the next `add` sees an empty collection | items 1, 2, 3; `rebalance()`; `add(4)` leaves only 4 | the counter keeps the item count across the rebuild | high (not executed) | LinkedBst.RebalanceThenAddLosesItems | LinkedBst.RebalanceKeepingSize |
