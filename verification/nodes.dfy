/**
  Nodes of the linked binary search tree, and the views of a tree that the
  operations are specified against: its node count, its contents as a
  multiset, its in-order reading and the ordering invariant.
 */
module Nodes {

  /** A node owns one integer item and its optional left and right children. */
  datatype Tree = Leaf | Node(left: Tree, data: int, right: Tree)

  function NodeCount(t: Tree): nat
  {
    match t
    case Leaf => 0
    case Node(l, _, r) => NodeCount(l) + 1 + NodeCount(r)
  }

  /** The items stored in the tree, with their multiplicities. */
  function Contents(t: Tree): multiset<int>
  {
    match t
    case Leaf => multiset{}
    case Node(l, d, r) => Contents(l) + multiset{d} + Contents(r)
  }

  /** The items read left subtree, node, right subtree (`inorder`). */
  function Inorder(t: Tree): (s: seq<int>)
    ensures |s| == NodeCount(t)
  {
    match t
    case Leaf => []
    case Node(l, d, r) => Inorder(l) + [d] + Inorder(r)
  }

  /** The in-order reading lists every stored item exactly as often as it is stored. */
  lemma {:induction false} InorderContents(t: Tree)
    ensures multiset(Inorder(t)) == Contents(t)
  {
    match t
    case Leaf =>
    case Node(l, d, r) =>
      InorderContents(l);
      InorderContents(r);
      assert Inorder(t) == Inorder(l) + [d] + Inorder(r);
  }

  /** An item occurs in the in-order reading exactly when it is stored. */
  lemma InorderMembers(t: Tree)
    ensures forall y :: y in Inorder(t) <==> y in Contents(t)
  {
    InorderContents(t);
    assert forall y :: y in Inorder(t) <==> y in multiset(Inorder(t));
  }

  predicate Sorted(s: seq<int>)
  {
    forall i, j | 0 <= i < j < |s| :: s[i] <= s[j]
  }

  /**
    The ordering invariant that insertion and deletion both keep: every item
    of a left subtree is at most the node's item, and every item of a right
    subtree is at least it. Equal items may sit on either side.
   */
  predicate Ordered(t: Tree)
  {
    match t
    case Leaf => true
    case Node(l, d, r) =>
      && Ordered(l)
      && Ordered(r)
      && (forall y | y in Contents(l) :: y <= d)
      && (forall y | y in Contents(r) :: d <= y)
  }

  /**
    The stricter ordering that insertion alone produces: left items are
    strictly smaller than the node's item, right items are at least it.
   */
  predicate StrictOrdered(t: Tree)
  {
    match t
    case Leaf => true
    case Node(l, d, r) =>
      && StrictOrdered(l)
      && StrictOrdered(r)
      && (forall y | y in Contents(l) :: y < d)
      && (forall y | y in Contents(r) :: d <= y)
  }

  lemma {:induction false} StrictOrderedIsOrdered(t: Tree)
    requires StrictOrdered(t)
    ensures Ordered(t)
  {
    match t
    case Leaf =>
    case Node(l, _, r) =>
      StrictOrderedIsOrdered(l);
      StrictOrderedIsOrdered(r);
  }

  /** A sequence split around one item is sorted exactly when both sides are and the item separates them. */
  lemma SortedAround(a: seq<int>, d: int, b: seq<int>)
    ensures Sorted(a + [d] + b) <==>
      && Sorted(a)
      && Sorted(b)
      && (forall y | y in a :: y <= d)
      && (forall y | y in b :: d <= y)
  {
    var s := a + [d] + b;
    assert forall i | 0 <= i < |a| :: s[i] == a[i];
    assert s[|a|] == d;
    assert forall i | 0 <= i < |b| :: s[|a| + 1 + i] == b[i];
    if Sorted(s) {
      assert forall i, j | 0 <= i < j < |a| :: a[i] <= a[j] by {
        forall i, j | 0 <= i < j < |a| ensures a[i] <= a[j] {
          assert s[i] <= s[j];
        }
      }
      forall i, j | 0 <= i < j < |b| ensures b[i] <= b[j] {
        assert s[|a| + 1 + i] <= s[|a| + 1 + j];
      }
      forall y | y in a ensures y <= d {
        var i :| 0 <= i < |a| && a[i] == y;
        assert s[i] <= s[|a|];
      }
      forall y | y in b ensures d <= y {
        var i :| 0 <= i < |b| && b[i] == y;
        assert s[|a|] <= s[|a| + 1 + i];
      }
    }
    if && Sorted(a) && Sorted(b)
       && (forall y | y in a :: y <= d)
       && (forall y | y in b :: d <= y)
    {
      forall i, j | 0 <= i < j < |s| ensures s[i] <= s[j] {
        if j < |a| {
          assert s[i] == a[i] && s[j] == a[j];
        } else if i < |a| {
          assert s[i] in a;
          if j > |a| {
            assert s[j] == b[j - |a| - 1];
            assert s[j] in b;
          }
        } else if i == |a| {
          assert s[j] == b[j - |a| - 1];
          assert s[j] in b;
        } else {
          assert s[i] == b[i - |a| - 1] && s[j] == b[j - |a| - 1];
        }
      }
    }
  }

  /** The ordering invariant holds exactly when the in-order reading is non-decreasing. */
  lemma {:induction false} OrderedIffSorted(t: Tree)
    ensures Ordered(t) <==> Sorted(Inorder(t))
  {
    match t
    case Leaf =>
    case Node(l, d, r) =>
      OrderedIffSorted(l);
      OrderedIffSorted(r);
      SortedAround(Inorder(l), d, Inorder(r));
      InorderMembers(l);
      InorderMembers(r);
  }
}
