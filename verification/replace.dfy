/**
  `replace`: overwrite the item of the node that the three-way descent
  stops at. No node is relinked and nothing is re-sorted, so keeping the
  ordering invariant is left to the caller.
 */
module Replace {
  import opened Wrappers
  import opened Nodes
  import opened Search

  /** Two trees with the same nodes in the same places, whatever their items. */
  predicate SameShape(a: Tree, b: Tree)
  {
    match a
    case Leaf => b.Leaf?
    case Node(al, _, ar) => b.Node? && SameShape(al, b.left) && SameShape(ar, b.right)
  }

  lemma {:induction false} SameShapeReflexive(t: Tree)
    ensures SameShape(t, t)
  {
    match t
    case Leaf =>
    case Node(l, _, r) =>
      SameShapeReflexive(l);
      SameShapeReflexive(r);
  }

  /**
    Returns the tree with the matched node's item set to `y`, and the old
    item, or the unchanged tree and `None` when the descent runs off the tree.
   */
  function ReplaceTree(t: Tree, x: int, y: int): (res: (Tree, Option<int>))
    ensures SameShape(t, res.0)
    ensures res.1 == Find(t, x)
    ensures res.1.None? ==> res.0 == t
  {
    match t
    case Leaf => (Leaf, None)
    case Node(l, d, rt) =>
      SameShapeReflexive(l);
      SameShapeReflexive(rt);
      if d == x then (Node(l, y, rt), Some(d))
      else if d > x then
        var (l', previous) := ReplaceTree(l, x, y);
        (Node(l', d, rt), previous)
      else
        var (r', previous) := ReplaceTree(rt, x, y);
        (Node(l, d, r'), previous)
  }

  lemma UpdateLeft(sl: seq<int>, d: int, sr: seq<int>, k: nat, y: int)
    requires k < |sl|
    ensures sl[k := y] + [d] + sr == (sl + [d] + sr)[k := y]
  {
  }

  lemma UpdateRight(sl: seq<int>, d: int, sr: seq<int>, k: nat, y: int)
    requires k < |sr|
    ensures sl + [d] + sr[k := y] == (sl + [d] + sr)[|sl| + 1 + k := y]
  {
  }

  /**
    On a hit exactly one slot of the in-order reading changes: the one that
    held `x` now holds `y`. Every other node keeps its item.
   */
  lemma {:induction false} ReplaceOneSlot(t: Tree, x: int, y: int) returns (k: nat)
    requires Find(t, x).Some?
    ensures k < |Inorder(t)| && Inorder(t)[k] == x
    ensures Inorder(ReplaceTree(t, x, y).0) == Inorder(t)[k := y]
  {
    match t
    case Node(l, d, rt) =>
      var sl, sr := Inorder(l), Inorder(rt);
      assert Inorder(t) == sl + [d] + sr;
      if d == x {
        k := |sl|;
        assert ReplaceTree(t, x, y).0 == Node(l, y, rt);
      } else if d > x {
        var k' := ReplaceOneSlot(l, x, y);
        k := k';
        assert ReplaceTree(t, x, y).0 == Node(ReplaceTree(l, x, y).0, d, rt);
        UpdateLeft(sl, d, sr, k', y);
      } else {
        var k' := ReplaceOneSlot(rt, x, y);
        k := |sl| + 1 + k';
        assert ReplaceTree(t, x, y).0 == Node(l, d, ReplaceTree(rt, x, y).0);
        UpdateRight(sl, d, sr, k', y);
      }
  }

  /** The caller must keep the order: replacing a left item by a larger one breaks it. */
  lemma ReplaceCanBreakOrder()
    ensures var t := Node(Node(Leaf, 1, Leaf), 5, Leaf);
      Ordered(t) && !Ordered(ReplaceTree(t, 1, 9).0)
  {
    var t := Node(Node(Leaf, 1, Leaf), 5, Leaf);
    assert ReplaceTree(t, 1, 9).0 == Node(Node(Leaf, 9, Leaf), 5, Leaf);
    assert 9 in Contents(Node(Leaf, 9, Leaf));
  }
}
