/**
  Insertion (`add`): the new item always becomes a new leaf, found by going
  left past strictly greater items and right past all others.
 */
module Insert {
  import opened Nodes

  /**
    `r` is `t` with exactly one empty child slot filled by a single new node
    holding `x`; every node of `t` keeps its item and position.
   */
  predicate GrowsByLeaf(t: Tree, r: Tree, x: int)
  {
    match t
    case Leaf => r == Node(Leaf, x, Leaf)
    case Node(l, d, rt) =>
      && r.Node?
      && r.data == d
      && ((r.right == rt && GrowsByLeaf(l, r.left, x))
          || (r.left == l && GrowsByLeaf(rt, r.right, x)))
  }

  /** The descent of `add` below a non-empty root, also used on an empty tree. */
  function AddTree(t: Tree, x: int): (r: Tree)
    ensures GrowsByLeaf(t, r, x)
    ensures NodeCount(r) == NodeCount(t) + 1
  {
    match t
    case Leaf => Node(Leaf, x, Leaf)
    case Node(l, d, rt) =>
      if x < d then Node(AddTree(l, x), d, rt)
      else Node(l, d, AddTree(rt, x))
  }

  /** Insertion stores exactly one more copy of `x` and loses nothing. */
  lemma {:induction false} AddContents(t: Tree, x: int)
    ensures Contents(AddTree(t, x)) == Contents(t) + multiset{x}
  {
    match t
    case Leaf =>
    case Node(l, d, rt) =>
      if x < d {
        AddContents(l, x);
        assert AddTree(t, x) == Node(AddTree(l, x), d, rt);
      } else {
        AddContents(rt, x);
        assert AddTree(t, x) == Node(l, d, AddTree(rt, x));
      }
  }

  /** Insertion keeps the ordering invariant. */
  lemma {:induction false} AddKeepsOrdered(t: Tree, x: int)
    requires Ordered(t)
    ensures Ordered(AddTree(t, x))
  {
    match t
    case Leaf =>
    case Node(l, d, rt) =>
      if x < d {
        var l' := AddTree(l, x);
        AddKeepsOrdered(l, x);
        AddContents(l, x);
        assert AddTree(t, x) == Node(l', d, rt);
        forall y | y in Contents(l') ensures y <= d {
          assert y in Contents(l) || y == x;
        }
      } else {
        var r' := AddTree(rt, x);
        AddKeepsOrdered(rt, x);
        AddContents(rt, x);
        assert AddTree(t, x) == Node(l, d, r');
        forall y | y in Contents(r') ensures d <= y {
          assert y in Contents(rt) || y == x;
        }
      }
  }

  /** Insertion alone keeps the strict ordering: equal items only ever go right. */
  lemma {:induction false} AddKeepsStrictOrdered(t: Tree, x: int)
    requires StrictOrdered(t)
    ensures StrictOrdered(AddTree(t, x))
  {
    match t
    case Leaf =>
    case Node(l, d, rt) =>
      if x < d {
        var l' := AddTree(l, x);
        AddKeepsStrictOrdered(l, x);
        AddContents(l, x);
        assert AddTree(t, x) == Node(l', d, rt);
        forall y | y in Contents(l') ensures y < d {
          assert y in Contents(l) || y == x;
        }
      } else {
        var r' := AddTree(rt, x);
        AddKeepsStrictOrdered(rt, x);
        AddContents(rt, x);
        assert AddTree(t, x) == Node(l, d, r');
        forall y | y in Contents(r') ensures d <= y {
          assert y in Contents(rt) || y == x;
        }
      }
  }

  lemma InsertLeft(sl: seq<int>, d: int, sr: seq<int>, k: nat, x: int)
    requires k <= |sl|
    ensures (sl[..k] + [x] + sl[k..]) + [d] + sr
         == (sl + [d] + sr)[..k] + [x] + (sl + [d] + sr)[k..]
  {
    assert (sl + [d] + sr)[..k] == sl[..k];
    assert (sl + [d] + sr)[k..] == sl[k..] + [d] + sr;
  }

  lemma InsertRight(sl: seq<int>, d: int, sr: seq<int>, k: nat, x: int)
    requires k <= |sr|
    ensures sl + [d] + (sr[..k] + [x] + sr[k..])
         == (sl + [d] + sr)[..|sl| + 1 + k] + [x] + (sl + [d] + sr)[|sl| + 1 + k..]
  {
    assert (sl + [d] + sr)[..|sl| + 1 + k] == sl + [d] + sr[..k];
    assert (sl + [d] + sr)[|sl| + 1 + k..] == sr[k..];
  }

  /** The in-order index at which `AddTree` places `x`. */
  function AddPosition(t: Tree, x: int): (k: nat)
    ensures k <= NodeCount(t)
  {
    match t
    case Leaf => 0
    case Node(l, d, rt) =>
      if x < d then AddPosition(l, x)
      else NodeCount(l) + 1 + AddPosition(rt, x)
  }

  /** Insertion adds `x` to the in-order reading at `AddPosition` and moves nothing else. */
  lemma {:induction false} AddInorder(t: Tree, x: int)
    ensures var k := AddPosition(t, x);
      Inorder(AddTree(t, x)) == Inorder(t)[..k] + [x] + Inorder(t)[k..]
  {
    match t
    case Leaf =>
    case Node(l, d, rt) =>
      var sl, sr := Inorder(l), Inorder(rt);
      assert Inorder(t) == sl + [d] + sr;
      if x < d {
        AddInorder(l, x);
        assert AddTree(t, x) == Node(AddTree(l, x), d, rt);
        assert Inorder(AddTree(t, x)) == Inorder(AddTree(l, x)) + [d] + sr;
        InsertLeft(sl, d, sr, AddPosition(l, x), x);
      } else {
        AddInorder(rt, x);
        assert AddTree(t, x) == Node(l, d, AddTree(rt, x));
        assert Inorder(AddTree(t, x)) == sl + [d] + Inorder(AddTree(rt, x));
        InsertRight(sl, d, sr, AddPosition(rt, x), x);
      }
  }

  /**
    On an ordered tree the new item lands after every item at most `x` (so
    after earlier equal items) and before every item greater than `x`.
   */
  lemma {:induction false} AddPositionSplits(t: Tree, x: int)
    requires Ordered(t)
    ensures forall i | 0 <= i < AddPosition(t, x) :: Inorder(t)[i] <= x
    ensures forall i | AddPosition(t, x) <= i < |Inorder(t)| :: x < Inorder(t)[i]
  {
    match t
    case Leaf =>
    case Node(l, d, rt) =>
      var sl, sr := Inorder(l), Inorder(rt);
      var s := Inorder(t);
      assert s == sl + [d] + sr;
      var k := AddPosition(t, x);
      if x < d {
        AddPositionSplits(l, x);
        forall i | k <= i < |s| ensures x < s[i] {
          if i > |sl| {
            var y := sr[i - |sl| - 1];
            assert s[i] == y;
            InorderMembers(rt);
            assert y in sr;
          } else if i < |sl| {
            assert s[i] == sl[i];
          }
        }
        forall i | 0 <= i < k ensures s[i] <= x {
          assert s[i] == sl[i];
        }
      } else {
        AddPositionSplits(rt, x);
        forall i | 0 <= i < k ensures s[i] <= x {
          if i < |sl| {
            var y := sl[i];
            assert s[i] == y;
            InorderMembers(l);
            assert y in sl;
          } else if i > |sl| {
            assert s[i] == sr[i - |sl| - 1];
          }
        }
        forall i | k <= i < |s| ensures x < s[i] {
          assert s[i] == sr[i - |sl| - 1];
        }
      }
  }
}
