/**
  Deletion (`remove`) below the root. The source walks down with a trailing
  parent pointer and a direction flag, starting from a sentinel node whose
  left child is the root; here each step returns the rebuilt subtree to its
  caller, which plays the part of the parent's child pointer (the sentinel
  becomes the value handed back for the root).
 */
module Delete {
  import opened Wrappers
  import opened Nodes
  import opened Search

  /**
    `liftMaxInLeftSubtreeToTop` on the left subtree `t`: follow right links
    to the last node, hand back its item and relink its parent to that
    node's left child (the direct-left-child case is the top call).
   */
  function RemoveMax(t: Tree): (res: (Tree, int))
    requires t.Node?
    ensures res.1 in Contents(t)
    ensures NodeCount(res.0) + 1 == NodeCount(t)
  {
    match t
    case Node(l, d, r) =>
      if r.Leaf? then (l, d)
      else
        var (r', m) := RemoveMax(r);
        (Node(l, d, r'), m)
  }

  /** The lifted item is the last one in in-order, and the rest keep their order. */
  lemma {:induction false} RemoveMaxInorder(t: Tree)
    requires t.Node?
    ensures Inorder(t) == Inorder(RemoveMax(t).0) + [RemoveMax(t).1]
  {
    match t
    case Node(l, d, r) =>
      if r.Node? {
        RemoveMaxInorder(r);
        var (r', m) := RemoveMax(r);
        assert RemoveMax(t) == (Node(l, d, r'), m);
        calc {
          Inorder(t);
          Inorder(l) + [d] + Inorder(r);
          Inorder(l) + [d] + (Inorder(r') + [m]);
          (Inorder(l) + [d] + Inorder(r')) + [m];
        }
      }
  }

  /** Lifting the maximum removes exactly one copy of it. */
  lemma {:induction false} RemoveMaxContents(t: Tree)
    requires t.Node?
    ensures Contents(RemoveMax(t).0) + multiset{RemoveMax(t).1} == Contents(t)
  {
    match t
    case Node(l, d, r) =>
      if r.Node? {
        RemoveMaxContents(r);
        var (r', m) := RemoveMax(r);
        assert RemoveMax(t) == (Node(l, d, r'), m);
      }
  }

  /**
    On an ordered subtree the lifted item is its maximum, and what remains
    is still ordered and bounded by it.
   */
  lemma {:induction false} RemoveMaxIsMax(t: Tree)
    requires t.Node? && Ordered(t)
    ensures forall y | y in Contents(t) :: y <= RemoveMax(t).1
    ensures Ordered(RemoveMax(t).0)
  {
    match t
    case Node(l, d, r) =>
      if r.Node? {
        RemoveMaxIsMax(r);
        RemoveMaxContents(r);
        var (r', m) := RemoveMax(r);
        assert RemoveMax(t) == (Node(l, d, r'), m);
        assert d <= m;
        forall y | y in Contents(r') ensures d <= y {
          assert y in Contents(r);
        }
      }
  }

  /**
    The descent of `remove`: compare for equality first, go left when the
    node's item is greater, right otherwise. A node with two children takes
    the maximum of its left subtree; otherwise it is replaced by its right
    child when it has no left child, and by its left child when it has no
    right child. When the descent runs off the tree nothing changes.
   */
  function RemoveTree(t: Tree, x: int): (r: Tree)
    ensures Find(t, x).None? ==> r == t
    ensures Find(t, x).Some? ==> NodeCount(r) + 1 == NodeCount(t)
  {
    match t
    case Leaf => Leaf
    case Node(l, d, rt) =>
      if d == x then
        if l.Node? && rt.Node? then
          var (l', m) := RemoveMax(l);
          Node(l', m, rt)
        else if l.Leaf? then rt
        else l
      else if d > x then Node(RemoveTree(l, x), d, rt)
      else Node(l, d, RemoveTree(rt, x))
  }

  /** Unlinking a node with at most one child keeps the rest of its subtree. */
  lemma SpliceContents(l: Tree, d: int, r: Tree)
    requires l.Leaf? || r.Leaf?
    ensures Contents(if l.Leaf? then r else l) + multiset{d} == Contents(Node(l, d, r))
  {
  }

  /** Overwriting a two-child node with its left maximum removes exactly its own item. */
  lemma LiftContents(l: Tree, d: int, r: Tree)
    requires l.Node?
    ensures var (l', m) := RemoveMax(l);
      Contents(Node(l', m, r)) + multiset{d} == Contents(Node(l, d, r))
  {
    RemoveMaxContents(l);
  }

  /** A hit of the descent removes exactly one copy of `x` and nothing else. */
  lemma {:induction false} RemoveContents(t: Tree, x: int)
    requires Find(t, x).Some?
    ensures Contents(RemoveTree(t, x)) + multiset{x} == Contents(t)
  {
    match t
    case Node(l, d, rt) =>
      if d == x {
        if l.Node? && rt.Node? {
          LiftContents(l, d, rt);
        } else {
          SpliceContents(l, d, rt);
        }
      } else if d > x {
        RemoveContents(l, x);
        assert RemoveTree(t, x) == Node(RemoveTree(l, x), d, rt);
      } else {
        RemoveContents(rt, x);
        assert RemoveTree(t, x) == Node(l, d, RemoveTree(rt, x));
      }
  }

  /** Deletion never adds an item. */
  lemma RemoveShrinks(t: Tree, x: int)
    ensures Contents(RemoveTree(t, x)) <= Contents(t)
  {
    if Find(t, x).Some? {
      RemoveContents(t, x);
    }
  }

  /** Replacing the left subtree of an ordered node by an ordered one with fewer items keeps the order. */
  lemma ShrinkLeft(l: Tree, l': Tree, d: int, r: Tree)
    requires Ordered(Node(l, d, r)) && Ordered(l') && Contents(l') <= Contents(l)
    ensures Ordered(Node(l', d, r))
  {
    forall y | y in Contents(l') ensures y <= d {
      assert y in Contents(l);
    }
  }

  /** Replacing the right subtree of an ordered node by an ordered one with fewer items keeps the order. */
  lemma ShrinkRight(l: Tree, d: int, r: Tree, r': Tree)
    requires Ordered(Node(l, d, r)) && Ordered(r') && Contents(r') <= Contents(r)
    ensures Ordered(Node(l, d, r'))
  {
    forall y | y in Contents(r') ensures d <= y {
      assert y in Contents(r);
    }
  }

  /** Overwriting a two-child node of an ordered tree by its left maximum keeps the order. */
  lemma LiftKeepsOrdered(l: Tree, d: int, r: Tree)
    requires l.Node? && Ordered(Node(l, d, r))
    ensures var (l', m) := RemoveMax(l);
      Ordered(Node(l', m, r))
  {
    RemoveMaxIsMax(l);
    RemoveMaxContents(l);
    var (l', m) := RemoveMax(l);
    assert m <= d;
    forall y | y in Contents(l') ensures y <= m {
      assert y in Contents(l);
    }
  }

  /** Deletion keeps the (non-strict) ordering invariant. */
  lemma {:induction false} RemoveKeepsOrdered(t: Tree, x: int)
    requires Ordered(t)
    ensures Ordered(RemoveTree(t, x))
  {
    match t
    case Leaf =>
    case Node(l, d, rt) =>
      if d == x {
        if l.Node? && rt.Node? {
          LiftKeepsOrdered(l, d, rt);
        }
      } else if d > x {
        RemoveKeepsOrdered(l, x);
        RemoveShrinks(l, x);
        ShrinkLeft(l, RemoveTree(l, x), d, rt);
      } else {
        RemoveKeepsOrdered(rt, x);
        RemoveShrinks(rt, x);
        ShrinkRight(l, d, rt, RemoveTree(rt, x));
      }
  }
}
