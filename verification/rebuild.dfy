/**
  `new_tree`: build a tree from a list by making the middle element of each
  index range the root of that range. The source drives this with a work
  list of (node, first, last) triples; each node's subtree depends only on
  its range, so the order in which the work list is drained does not matter
  and the construction is written here as recursion. The inclusive range
  `first .. last` of the list is the slice `a[first..last + 1]`; its midpoint
  `(first + last) // 2` is `first + (last - first) // 2`, which is index
  `(|s| - 1) / 2` of that slice `s`.

  The source seeds the root with `result[len(result) // 2]` while treating the
  root's range as `0 .. n-1`, whose midpoint is `(n-1) // 2`. For odd n these
  agree; for even n the root holds the element just right of the midpoint.
 */
module Rebuild {
  import opened Nodes
  import opened Height

  /** The floor of the binary logarithm. */
  function Log2(n: nat): (r: nat)
    requires n >= 1
    ensures Pow2(r) <= n < Pow2(r + 1)
  {
    if n == 1 then 0 else 1 + Log2(n / 2)
  }

  lemma {:induction false} Log2Monotone(p: nat, q: nat)
    requires 1 <= p <= q
    ensures Log2(p) <= Log2(q)
  {
    if p > 1 {
      Log2Monotone(p / 2, q / 2);
    }
  }

  /** The height a midpoint tree over m items gets: -1 for none, otherwise the floor of log2 m. */
  function BalancedHeight(m: nat): int
  {
    if m == 0 then -1 else Log2(m)
  }

  lemma BalancedHeightMonotone(p: nat, q: nat)
    requires p <= q
    ensures BalancedHeight(p) <= BalancedHeight(q)
  {
    if p >= 1 {
      Log2Monotone(p, q);
    }
  }

  /**
    The subtree the work list produces for the range `s`: the element at the
    midpoint with the two half-ranges below it; an empty range gives no node.
   */
  function Build(s: seq<int>): (t: Tree)
    ensures t.Leaf? <==> |s| == 0
  {
    if |s| == 0 then Leaf
    else
      var mid := (|s| - 1) / 2;
      Node(Build(s[..mid]), s[mid], Build(s[mid + 1..]))
  }

  lemma Glue(t: Tree, x: seq<int>, y: seq<int>)
    requires t.Node? && Inorder(t.left) == x && Inorder(t.right) == y
    ensures Inorder(t) == x + [t.data] + y
  {
  }

  lemma Split(s: seq<int>, mid: int)
    requires 0 <= mid < |s|
    ensures s == s[..mid] + [s[mid]] + s[mid + 1..]
  {
  }

  /** The midpoint construction reads its range back in order. */
  lemma {:induction false} BuildInorder(s: seq<int>)
    ensures Inorder(Build(s)) == s
  {
    if |s| > 0 {
      var mid := (|s| - 1) / 2;
      var l, r := s[..mid], s[mid + 1..];
      BuildInorder(l);
      BuildInorder(r);
      Glue(Build(s), l, r);
      Split(s, mid);
    }
  }

  /** The two halves below the root of a range of m >= 1 items hold (m - 1) / 2 and m / 2 items. */
  lemma HalfSizes(s: seq<int>)
    requires |s| >= 1
    ensures |s[..(|s| - 1) / 2]| == (|s| - 1) / 2
    ensures |s[(|s| - 1) / 2 + 1..]| == |s| / 2
  {
  }

  /** A range of m items gets the height of a perfectly balanced tree. */
  lemma {:induction false} BuildHeight(s: seq<int>)
    ensures TrueHeight(Build(s)) == BalancedHeight(|s|)
  {
    if |s| > 0 {
      var m := |s|;
      var mid := (m - 1) / 2;
      var l, r := s[..mid], s[mid + 1..];
      assert Build(s) == Node(Build(l), s[mid], Build(r));
      HalfSizes(s);
      BuildHeight(l);
      BuildHeight(r);
      BalancedHeightMonotone((m - 1) / 2, m / 2);
    }
  }

  /**
    The all-right path of a range of m items is one node longer than its
    height: the right half is never smaller than the left half.
   */
  lemma {:induction false} BuildRightSpine(s: seq<int>)
    ensures RightSpine(Build(s)) == BalancedHeight(|s|) + 1
  {
    if |s| > 0 {
      var mid := (|s| - 1) / 2;
      var r := s[mid + 1..];
      assert Build(s) == Node(Build(s[..mid]), s[mid], Build(r));
      HalfSizes(s);
      BuildRightSpine(r);
    }
  }

  /** On a midpoint tree the spine count of `height()` equals the true height. */
  lemma BuildSpineHeight(s: seq<int>)
    ensures SpineHeight(Build(s)) == BalancedHeight(|s|)
  {
    if |s| > 0 {
      var m := |s|;
      var mid := (m - 1) / 2;
      var l, r := s[..mid], s[mid + 1..];
      assert Build(s) == Node(Build(l), s[mid], Build(r));
      HalfSizes(s);
      BuildHeight(l);
      BuildRightSpine(r);
      SpinesWithinHeight(Build(l));
      BalancedHeightMonotone((m - 1) / 2, m / 2);
    }
  }

  /**
    `new_tree` as written: the midpoint construction over the whole list,
    except that the root's item is taken from index n / 2 while its two
    halves are those of the midpoint (n - 1) / 2.
   */
  function NewTree(a: seq<int>): (t: Tree)
    ensures t.Leaf? <==> |a| == 0
  {
    if |a| == 0 then Leaf
    else
      var mid := (|a| - 1) / 2;
      Node(Build(a[..mid]), a[|a| / 2], Build(a[mid + 1..]))
  }

  /** The midpoint construction `new_tree` evidently intends: the root holds index (n - 1) / 2. */
  function MidpointTree(a: seq<int>): (t: Tree)
    ensures Inorder(t) == a
  {
    BuildInorder(a);
    Build(a)
  }

  lemma UpdateSplit(a: seq<int>, mid: int, v: int)
    requires 0 <= mid < |a|
    ensures a[mid := v] == a[..mid] + [v] + a[mid + 1..]
  {
  }

  /** `new_tree` differs from the midpoint construction only in the root's item. */
  lemma NewTreeRoot(a: seq<int>)
    requires |a| >= 1
    ensures Build(a).Node? && NewTree(a) == Node(Build(a).left, a[|a| / 2], Build(a).right)
  {
  }

  /**
    What `new_tree` reads back in order: the input with the middle slot
    (n - 1) / 2 overwritten by the element at n / 2.
   */
  lemma NewTreeInorder(a: seq<int>)
    requires |a| >= 1
    ensures Inorder(NewTree(a)) == a[(|a| - 1) / 2 := a[|a| / 2]]
  {
    var n := |a|;
    var mid := (n - 1) / 2;
    var l, r := a[..mid], a[mid + 1..];
    BuildInorder(l);
    BuildInorder(r);
    Glue(NewTree(a), l, r);
    UpdateSplit(a, mid, a[n / 2]);
  }

  /** `new_tree` keeps the number of items. */
  lemma NewTreeCount(a: seq<int>)
    ensures NodeCount(NewTree(a)) == |a|
  {
    if |a| >= 1 {
      NewTreeInorder(a);
    }
  }

  lemma UpdateSame(a: seq<int>, i: int)
    requires 0 <= i < |a|
    ensures a[i := a[i]] == a
  {
  }

  /** For an odd number of items `new_tree` keeps the list exactly. */
  lemma NewTreeOdd(a: seq<int>)
    requires |a| % 2 == 1
    ensures Inorder(NewTree(a)) == a
  {
    NewTreeInorder(a);
    assert (|a| - 1) / 2 == |a| / 2;
    UpdateSame(a, |a| / 2);
  }

  /**
    Overwriting the left middle slot of an even-length list of distinct items
    by the right middle one loses the former and doubles the latter.
   */
  lemma {:induction false} OverwriteMiddle(a: seq<int>)
    requires |a| >= 2 && |a| % 2 == 0
    requires forall i, j | 0 <= i < j < |a| :: a[i] != a[j]
    ensures var s := a[(|a| - 1) / 2 := a[|a| / 2]];
      a[(|a| - 1) / 2] !in multiset(s) && multiset(s)[a[|a| / 2]] == 2
  {
    var n := |a|;
    var mid := (n - 1) / 2;
    var s := a[mid := a[n / 2]];
    var front, back := a[..mid], a[n / 2 + 1..];
    assert s == front + [a[n / 2], a[n / 2]] + back;
    forall i | 0 <= i < |front| ensures front[i] != a[mid] && front[i] != a[n / 2] {
      assert front[i] == a[i];
    }
    forall i | 0 <= i < |back| ensures back[i] != a[mid] && back[i] != a[n / 2] {
      assert back[i] == a[n / 2 + 1 + i];
    }
    assert multiset(s) == multiset(front) + multiset{a[n / 2], a[n / 2]} + multiset(back);
  }

  /**
    For an even number of distinct items the element at (n - 1) / 2 is lost
    and the one at n / 2 is stored twice.
   */
  lemma NewTreeEvenLosesMiddle(a: seq<int>)
    requires |a| >= 2 && |a| % 2 == 0
    requires forall i, j | 0 <= i < j < |a| :: a[i] != a[j]
    ensures a[(|a| - 1) / 2] !in Contents(NewTree(a))
    ensures Contents(NewTree(a))[a[|a| / 2]] == 2
  {
    NewTreeInorder(a);
    InorderContents(NewTree(a));
    OverwriteMiddle(a);
  }

  /** Copying the right middle item over the left middle one keeps a list sorted. */
  lemma SortedUpdateMiddle(a: seq<int>)
    requires |a| >= 1 && Sorted(a)
    ensures Sorted(a[(|a| - 1) / 2 := a[|a| / 2]])
  {
    var mid, v := (|a| - 1) / 2, a[|a| / 2];
    var s := a[mid := v];
    assert forall k | 0 <= k < |s| :: s[k] == (if k == mid then v else a[k]);
  }

  /** A sorted list gives a tree that keeps the ordering invariant, even for even n. */
  lemma NewTreeOrdered(a: seq<int>)
    requires Sorted(a)
    ensures Ordered(NewTree(a))
  {
    if |a| >= 1 {
      NewTreeInorder(a);
      SortedUpdateMiddle(a);
      OrderedIffSorted(NewTree(a));
    }
  }

  /** `new_tree` over n >= 1 items is floor(log2 n) high, by either measure. */
  lemma NewTreeHeight(a: seq<int>)
    requires |a| >= 1
    ensures TrueHeight(NewTree(a)) == Log2(|a|)
    ensures SpineHeight(NewTree(a)) == Log2(|a|)
  {
    BuildHeight(a);
    BuildSpineHeight(a);
    NewTreeRoot(a);
  }

  /** Overwriting the left middle slot by the right middle one keeps both halves and the right middle. */
  lemma UpdateKeepsHalves(a: seq<int>)
    requires |a| >= 1
    ensures var mid := (|a| - 1) / 2;
      var s := a[mid := a[|a| / 2]];
      && |s| == |a|
      && s[..mid] == a[..mid]
      && s[mid + 1..] == a[mid + 1..]
      && s[|a| / 2] == a[|a| / 2]
  {
  }

  /** `new_tree` looks only at the two halves and at index n / 2. */
  lemma SameHalvesSameTree(a: seq<int>, s: seq<int>)
    requires |a| == |s| >= 1
    requires s[..(|a| - 1) / 2] == a[..(|a| - 1) / 2]
    requires s[(|a| - 1) / 2 + 1..] == a[(|a| - 1) / 2 + 1..]
    requires s[|a| / 2] == a[|a| / 2]
    ensures NewTree(s) == NewTree(a)
  {
  }

  /** Building again from what `new_tree` reads back gives the same tree. */
  lemma NewTreeIdempotent(a: seq<int>)
    ensures NewTree(Inorder(NewTree(a))) == NewTree(a)
  {
    if |a| >= 1 {
      NewTreeInorder(a);
      UpdateKeepsHalves(a);
      SameHalvesSameTree(a, a[(|a| - 1) / 2 := a[|a| / 2]]);
    }
  }

  /** The smallest case of the root bug: [1, 2] becomes a tree that reads [2, 2]. */
  lemma NewTreeRootCounterexample()
    ensures Inorder(NewTree([1, 2])) == [2, 2]
    ensures Inorder(MidpointTree([1, 2])) == [1, 2]
  {
    NewTreeInorder([1, 2]);
  }
}
