/**
  The `LinkedBST` collection: a root pointer and the size counter kept by
  its base collection. Every mutator is a function from the old state to
  the new one (with the value Python returns, where there is one).

  The base collection is not part of this model; `isEmpty()` is taken to
  read the size counter, and the constructor to start from an empty tree
  with size 0 and `add` each item of the source collection in order.

  The counter and the tree agree (`Valid`) under `add` and `remove`, but
  `rebalance` sets the counter to 0 and leaves the tree in place, after
  which `add` and `remove` act on the counter, not on the tree.
 */
module LinkedBst {
  import opened Wrappers
  import opened Nodes
  import opened Search
  import opened Insert
  import opened Delete
  import opened Height
  import opened Rebuild

  datatype BST = BST(root: Tree, size: nat)

  /** The error `remove` raises for an item the search does not find. */
  datatype BstError = KeyError

  /** The counter counts the nodes and the tree keeps the ordering invariant. */
  predicate Valid(b: BST)
  {
    Ordered(b.root) && b.size == NodeCount(b.root)
  }

  predicate IsEmpty(b: BST)
  {
    b.size == 0
  }

  /** `clear`: no root and a zero counter. */
  function Clear(b: BST): (r: BST)
    ensures Valid(r) && IsEmpty(r)
    ensures Contents(r.root) == multiset{}
  {
    BST(Leaf, 0)
  }

  /**
    `add`: an empty collection (by the counter) gets a fresh one-node tree,
    anything else grows by a leaf; the counter goes up by one either way.
   */
  function Add(b: BST, x: int): (r: BST)
    ensures r.size == b.size + 1
    ensures IsEmpty(b) ==> Contents(r.root) == multiset{x}
    ensures Find(r.root, x) == Some(x)
  {
    if IsEmpty(b) then BST(Node(Leaf, x, Leaf), 1)
    else
      AddThenFind(b.root, x);
      BST(AddTree(b.root, x), b.size + 1)
  }

  /** Whatever the tree, `find` reaches the item `add` has just put in. */
  lemma {:induction false} AddThenFind(t: Tree, x: int)
    ensures Find(AddTree(t, x), x) == Some(x)
  {
    match t
    case Leaf =>
    case Node(l, d, rt) =>
      if x < d {
        AddThenFind(l, x);
        assert AddTree(t, x) == Node(AddTree(l, x), d, rt);
      } else {
        AddThenFind(rt, x);
        assert AddTree(t, x) == Node(l, d, AddTree(rt, x));
      }
  }

  /** On a consistent collection `add` stores one more copy of `x` and keeps it consistent. */
  lemma AddValid(b: BST, x: int)
    requires Valid(b)
    ensures Valid(Add(b, x))
    ensures Contents(Add(b, x).root) == Contents(b.root) + multiset{x}
  {
    if !IsEmpty(b) {
      AddKeepsOrdered(b.root, x);
      AddContents(b.root, x);
    } else {
      assert b.root == Leaf;
    }
  }

  /** The constructor: start empty and add the items in order. */
  function FromList(items: seq<int>): (r: BST)
    ensures r.size == |items|
  {
    if |items| == 0 then BST(Leaf, 0)
    else Add(FromList(items[..|items| - 1]), items[|items| - 1])
  }

  lemma MultisetSnoc(s: seq<int>)
    requires |s| > 0
    ensures multiset(s) == multiset(s[..|s| - 1]) + multiset{s[|s| - 1]}
  {
    assert s == s[..|s| - 1] + [s[|s| - 1]];
  }

  /** A collection built from a list is consistent and stores exactly the list's items. */
  lemma {:induction false} FromListValid(items: seq<int>)
    ensures Valid(FromList(items))
    ensures Contents(FromList(items).root) == multiset(items)
  {
    if |items| > 0 {
      var front, x := items[..|items| - 1], items[|items| - 1];
      FromListValid(front);
      AddValid(FromList(front), x);
      MultisetSnoc(items);
    }
  }

  /** Adding a list and reading the tree in order sorts the list (tree sort). */
  lemma FromListSorts(items: seq<int>)
    ensures Sorted(Inorder(FromList(items).root))
    ensures multiset(Inorder(FromList(items).root)) == multiset(items)
  {
    var t := FromList(items).root;
    FromListValid(items);
    OrderedIffSorted(t);
    InorderContents(t);
  }

  /**
    `remove`: raises `KeyError` when the search misses; returns nothing and
    changes nothing when the counter is 0; otherwise unlinks the node the
    search stops at, decrements the counter, drops the whole tree when the
    counter reaches 0, and returns the item. The descent of `remove` is the
    same three-way descent as `find`, so once the membership test has
    passed the node is always found and the source's second miss branch
    cannot be taken.
   */
  function Remove(b: BST, x: int): (res: (BST, Result<Option<int>, BstError>))
    ensures res.1.Failure? <==> Find(b.root, x).None?
    ensures res.1.Failure? || res.1.value.None? ==> res.0 == b
    ensures res.1.Success? && res.1.value.Some? ==>
      res.1.value.value == x && res.0.size + 1 == b.size
  {
    if !Contains(b.root, x) then (b, Failure(KeyError))
    else if IsEmpty(b) then (b, Success(None))
    else
      var t := RemoveTree(b.root, x);
      var n := b.size - 1;
      (BST(if n == 0 then Leaf else t, n), Success(Some(x)))
  }

  /**
    On a consistent collection `remove` raises exactly for items not stored;
    a stored item is returned, one copy of it is taken out, nothing else
    changes and the collection stays consistent.
   */
  lemma RemoveValid(b: BST, x: int)
    requires Valid(b)
    ensures Remove(b, x).1.Failure? <==> x !in Contents(b.root)
    ensures x in Contents(b.root) ==>
      && Remove(b, x).1 == Success(Some(x))
      && Valid(Remove(b, x).0)
      && Contents(Remove(b, x).0.root) + multiset{x} == Contents(b.root)
  {
    if x in Contents(b.root) {
      var t := RemoveTree(b.root, x);
      RemoveContents(b.root, x);
      RemoveKeepsOrdered(b.root, x);
      assert NodeCount(t) == 0 ==> t == Leaf;
    }
  }

  /** After removing a stored `x`, `x` is still found exactly when a second copy was stored. */
  lemma RemoveThenContains(b: BST, x: int)
    requires Valid(b) && x in Contents(b.root)
    ensures Contains(Remove(b, x).0.root, x) <==> Contents(b.root)[x] >= 2
  {
    RemoveValid(b, x);
    var r := Remove(b, x).0;
    assert Contents(r.root)[x] + 1 == Contents(b.root)[x];
  }

  /** Remove then add puts the same items back. */
  lemma RemoveThenAdd(b: BST, x: int)
    requires Valid(b) && x in Contents(b.root)
    ensures Valid(Add(Remove(b, x).0, x))
    ensures Contents(Add(Remove(b, x).0, x).root) == Contents(b.root)
  {
    RemoveValid(b, x);
    AddValid(Remove(b, x).0, x);
  }

  /** Adding 10, 5, 12, 5 in order puts the second 5 to the right of the first. */
  lemma TenFiveTwelveFive()
    ensures FromList([10, 5, 12, 5])
      == BST(Node(Node(Leaf, 5, Node(Leaf, 5, Leaf)), 10, Node(Leaf, 12, Leaf)), 4)
  {
    assert [10, 5, 12, 5][..3] == [10, 5, 12];
    assert [10, 5, 12][..2] == [10, 5];
    assert [10, 5][..1] == [10];
    assert FromList([10]) == BST(Node(Leaf, 10, Leaf), 1);
    assert FromList([10, 5]) == BST(Node(Node(Leaf, 5, Leaf), 10, Leaf), 2);
    assert FromList([10, 5, 12]) == BST(Node(Node(Leaf, 5, Leaf), 10, Node(Leaf, 12, Leaf)), 3);
  }

  /**
    Equal items may sit on both sides of a node: adding 10, 5, 12, 5 (the
    tree `TenFiveTwelveFive` shows) keeps
    left items strictly smaller, but removing 10 lifts the lower 5 into the
    root above the other 5. This is why the ordering invariant is the
    non-strict one.
   */
  lemma RemoveBreaksStrictOrder(b: BST)
    requires b == BST(Node(Node(Leaf, 5, Node(Leaf, 5, Leaf)), 10, Node(Leaf, 12, Leaf)), 4)
    ensures StrictOrdered(b.root)
    ensures Remove(b, 10).0.root == Node(Node(Leaf, 5, Leaf), 5, Node(Leaf, 12, Leaf))
    ensures !StrictOrdered(Remove(b, 10).0.root)
  {
    var r := Remove(b, 10).0.root;
    assert r == Node(Node(Leaf, 5, Leaf), 5, Node(Leaf, 12, Leaf));
    assert 5 in Contents(r.left);
  }

  /** The nodes in a stack of subtrees, counted from the top. */
  function StackCount(stack: seq<Tree>): nat
  {
    if |stack| == 0 then 0
    else StackCount(stack[..|stack| - 1]) + NodeCount(stack[|stack| - 1])
  }

  lemma PushCount(stack: seq<Tree>, t: Tree)
    ensures StackCount(stack + [t]) == StackCount(stack) + NodeCount(t)
  {
    assert (stack + [t])[..|stack|] == stack;
  }

  /**
    `__iter__`: counts the nodes with an explicit stack when the counter is
    non-zero, and reports 0 otherwise. A non-zero counter over an empty tree
    would make the source read a child of a missing node, so the caller
    must not ask for that.
   */
  method CountNodes(b: BST) returns (count: nat)
    requires b.root.Leaf? ==> IsEmpty(b)
    ensures IsEmpty(b) ==> count == 0
    ensures !IsEmpty(b) ==> count == NodeCount(b.root)
    ensures Valid(b) ==> count == b.size
  {
    count := 0;
    if IsEmpty(b) {
      return;
    }
    var stack := [b.root];
    count := 1;
    PushCount([], b.root);
    while stack != []
      invariant forall i | 0 <= i < |stack| :: stack[i].Node?
      invariant count + StackCount(stack) == NodeCount(b.root) + |stack|
      decreases StackCount(stack)
    {
      var node := stack[|stack| - 1];
      var rest := stack[..|stack| - 1];
      assert stack == rest + [node];
      PushCount(rest, node);
      stack := rest;
      if node.right.Node? {
        PushCount(stack, node.right);
        stack := stack + [node.right];
        count := count + 1;
      }
      if node.left.Node? {
        PushCount(stack, node.left);
        stack := stack + [node.left];
        count := count + 1;
      }
    }
  }

  /**
    `rebalance`: read the items in order, clear, and build a fresh tree with
    `new_tree`. The counter stays at the 0 that `clear` left.
   */
  function Rebalance(b: BST): (r: BST)
    ensures IsEmpty(r)
    ensures r.root.Leaf? <==> b.root.Leaf?
  {
    var c := Clear(b);
    BST(NewTree(Inorder(b.root)), c.size)
  }

  /**
    On a consistent collection `rebalance` keeps the number of nodes and the
    ordering invariant, and the new tree is floor(log2 n) high both truly
    and as `height()` counts it.
   */
  lemma RebalanceShape(b: BST)
    requires Valid(b) && !IsEmpty(b)
    ensures NodeCount(Rebalance(b).root) == b.size
    ensures Ordered(Rebalance(b).root)
    ensures TrueHeight(Rebalance(b).root) == Log2(b.size)
    ensures SpineHeight(Rebalance(b).root) == Log2(b.size)
  {
    var s := Inorder(b.root);
    NewTreeCount(s);
    OrderedIffSorted(b.root);
    NewTreeOrdered(s);
    NewTreeHeight(s);
  }

  /** Rebalancing twice gives the same collection as rebalancing once. */
  lemma RebalanceIdempotent(b: BST)
    ensures Rebalance(Rebalance(b)) == Rebalance(b)
  {
    NewTreeIdempotent(Inorder(b.root));
  }

  /** After `rebalance` the next `add` sees an empty collection and replaces the whole tree. */
  lemma RebalanceThenAdd(b: BST, x: int)
    ensures Add(Rebalance(b), x) == BST(Node(Leaf, x, Leaf), 1)
  {
  }

  /** After `rebalance`, removing an item the search finds returns nothing and changes nothing. */
  lemma RebalanceThenRemove(b: BST, x: int)
    requires Find(Rebalance(b).root, x).Some?
    ensures Remove(Rebalance(b), x) == (Rebalance(b), Success(None))
  {
  }

  /**
    `rebalance` as evidently intended: the midpoint tree over the in-order
    reading, with the counter kept. It keeps the collection consistent,
    reads back the same items in the same order and is floor(log2 n) high.
   */
  function RebalanceKeepingSize(b: BST): (r: BST)
    ensures Inorder(r.root) == Inorder(b.root)
    ensures Valid(b) ==> Valid(r)
    ensures TrueHeight(r.root) == BalancedHeight(NodeCount(b.root))
  {
    var s := Inorder(b.root);
    var r := BST(MidpointTree(s), b.size);
    OrderedIffSorted(b.root);
    OrderedIffSorted(r.root);
    BuildHeight(s);
    r
  }

  /** After the intended rebalance, `add` keeps every stored item. */
  lemma RebalanceKeepingSizeThenAdd(b: BST, x: int)
    requires Valid(b)
    ensures Valid(Add(RebalanceKeepingSize(b), x))
    ensures Contents(Add(RebalanceKeepingSize(b), x).root) == Contents(b.root) + multiset{x}
  {
    var k := RebalanceKeepingSize(b);
    InorderContents(k.root);
    InorderContents(b.root);
    AddValid(k, x);
  }

  /**
    Items lost: a consistent collection holding 1, 2, 3 is rebalanced and
    then given a 4, after which only the 4 is stored.
   */
  lemma RebalanceThenAddLosesItems(b: BST)
    requires Valid(b) && Contents(b.root) == multiset{1, 2, 3}
    ensures Contents(Add(Rebalance(b), 4).root) == multiset{4}
  {
    RebalanceThenAdd(b, 4);
  }

  /** The same collection rebalanced as intended keeps all four items. */
  lemma RebalanceKeepingSizeKeepsItems(b: BST)
    requires Valid(b) && Contents(b.root) == multiset{1, 2, 3}
    ensures Contents(Add(RebalanceKeepingSize(b), 4).root) == multiset{1, 2, 3, 4}
  {
    RebalanceKeepingSizeThenAdd(b, 4);
  }

  /** Adding 5, 3, 8, 1, 4 in order builds this tree. */
  lemma FiveThreeEightOneFour()
    ensures FromList([5, 3, 8, 1, 4])
      == BST(Node(Node(Node(Leaf, 1, Leaf), 3, Node(Leaf, 4, Leaf)), 5, Node(Leaf, 8, Leaf)), 5)
  {
    assert [5, 3, 8, 1, 4][..4] == [5, 3, 8, 1];
    assert [5, 3, 8, 1][..3] == [5, 3, 8];
    assert [5, 3, 8][..2] == [5, 3];
    assert [5, 3][..1] == [5];
    assert FromList([5]) == BST(Node(Leaf, 5, Leaf), 1);
    assert FromList([5, 3]) == BST(Node(Node(Leaf, 3, Leaf), 5, Leaf), 2);
    assert FromList([5, 3, 8]) == BST(Node(Node(Leaf, 3, Leaf), 5, Node(Leaf, 8, Leaf)), 3);
    assert FromList([5, 3, 8, 1])
      == BST(Node(Node(Node(Leaf, 1, Leaf), 3, Leaf), 5, Node(Leaf, 8, Leaf)), 4);
  }

  /** The collection of 5, 3, 8, 1, 4 reads back 1, 3, 4, 5, 8 and `height()` reports 2. */
  lemma FiveItemReading(b: BST)
    requires b == BST(Node(Node(Node(Leaf, 1, Leaf), 3, Node(Leaf, 4, Leaf)), 5, Node(Leaf, 8, Leaf)), 5)
    ensures Inorder(b.root) == [1, 3, 4, 5, 8]
    ensures SpineHeight(b.root) == 2
  {
    assert Inorder(b.root) == [1, 3, 4, 5, 8];
  }

  /** The five items are stored consistently. */
  lemma FiveItemValid(b: BST)
    requires b == BST(Node(Node(Node(Leaf, 1, Leaf), 3, Node(Leaf, 4, Leaf)), 5, Node(Leaf, 8, Leaf)), 5)
    ensures Valid(b)
  {
    FiveThreeEightOneFour();
    FromListValid([5, 3, 8, 1, 4]);
  }

  /** Removing 3 lifts 1 into its place; afterwards 3 is not found and 4 items remain. */
  lemma FiveItemRemove(b: BST)
    requires b == BST(Node(Node(Node(Leaf, 1, Leaf), 3, Node(Leaf, 4, Leaf)), 5, Node(Leaf, 8, Leaf)), 5)
    ensures Remove(b, 3).0 == BST(Node(Node(Leaf, 1, Node(Leaf, 4, Leaf)), 5, Node(Leaf, 8, Leaf)), 4)
    ensures !Contains(Remove(b, 3).0.root, 3)
  {
  }

  /** Rebalancing the five items gives a tree that `height()` reports as 2 high. */
  lemma FiveItemRebalance(b: BST)
    requires b == BST(Node(Node(Node(Leaf, 1, Leaf), 3, Node(Leaf, 4, Leaf)), 5, Node(Leaf, 8, Leaf)), 5)
    ensures SpineHeight(Rebalance(b).root) == 2
  {
    FiveItemValid(b);
    RebalanceShape(b);
    assert Log2(5) == 2;
  }
}
