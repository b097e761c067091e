/**
  `height`: the source does not compute the recursive height. Below the root
  it counts the nodes on the all-left path of the left child and on the
  all-right path of the right child and reports the larger count; an empty
  tree has height -1. `TrueHeight` is the recursive height it is compared with.
 */
module Height {
  import opened Nodes

  function Max(a: int, b: int): int
  {
    if a >= b then a else b
  }

  function Pow2(k: nat): (p: nat)
    ensures p >= 1
  {
    if k == 0 then 1 else 2 * Pow2(k - 1)
  }

  lemma {:induction false} Pow2Monotone(a: nat, b: nat)
    requires a <= b
    ensures Pow2(a) <= Pow2(b)
  {
    if a < b {
      Pow2Monotone(a, b - 1);
    }
  }

  /** Nodes reached from `t` by following left links only, `t` included. */
  function LeftSpine(t: Tree): nat
  {
    match t
    case Leaf => 0
    case Node(l, _, _) => 1 + LeftSpine(l)
  }

  /** Nodes reached from `t` by following right links only, `t` included. */
  function RightSpine(t: Tree): nat
  {
    match t
    case Leaf => 0
    case Node(_, _, r) => 1 + RightSpine(r)
  }

  /** The number of links on a longest downward path; -1 for an empty tree. */
  function TrueHeight(t: Tree): (h: int)
    ensures h == -1 <==> t.Leaf?
    ensures h >= -1
  {
    match t
    case Leaf => -1
    case Node(l, _, r) => 1 + Max(TrueHeight(l), TrueHeight(r))
  }

  /**
    Following `path` from `t` (true for left, false for right) visits a node
    at every step, ending on a node; `|path|` is the number of links taken.
   */
  predicate ReachesNode(t: Tree, path: seq<bool>)
    decreases |path|
  {
    t.Node? && (|path| == 0 || ReachesNode(if path[0] then t.left else t.right, path[1..]))
  }

  /** No downward path is longer than the recursive height. */
  lemma {:induction false} PathsWithinHeight(t: Tree, path: seq<bool>)
    requires ReachesNode(t, path)
    ensures |path| <= TrueHeight(t)
    decreases |path|
  {
    if |path| > 0 {
      var child := if path[0] then t.left else t.right;
      PathsWithinHeight(child, path[1..]);
    }
  }

  /** Some downward path is exactly as long as the recursive height. */
  lemma {:induction false} LongestPath(t: Tree) returns (path: seq<bool>)
    requires t.Node?
    ensures ReachesNode(t, path)
    ensures |path| == TrueHeight(t)
  {
    if t.left.Leaf? && t.right.Leaf? {
      path := [];
    } else if TrueHeight(t.left) >= TrueHeight(t.right) {
      var rest := LongestPath(t.left);
      path := [true] + rest;
      assert path[1..] == rest;
    } else {
      var rest := LongestPath(t.right);
      path := [false] + rest;
      assert path[1..] == rest;
    }
  }

  /** A path has fewer links than the tree has nodes. */
  lemma {:induction false} HeightBelowCount(t: Tree)
    ensures TrueHeight(t) < NodeCount(t)
  {
    match t
    case Leaf =>
    case Node(l, _, r) =>
      HeightBelowCount(l);
      HeightBelowCount(r);
  }

  /** Both spines are downward paths, so neither is longer than the tree is high. */
  lemma {:induction false} SpinesWithinHeight(t: Tree)
    ensures LeftSpine(t) <= TrueHeight(t) + 1
    ensures RightSpine(t) <= TrueHeight(t) + 1
  {
    match t
    case Leaf =>
    case Node(l, _, r) =>
      SpinesWithinHeight(l);
      SpinesWithinHeight(r);
  }

  /** What `height()` reports for a tree rooted at `t`. */
  function SpineHeight(t: Tree): (h: int)
    ensures h == -1 <==> t.Leaf?
    ensures t.Node? && t.left.Leaf? && t.right.Leaf? ==> h == 0
    ensures -1 <= h <= TrueHeight(t)
  {
    match t
    case Leaf => -1
    case Node(l, _, r) =>
      SpinesWithinHeight(l);
      SpinesWithinHeight(r);
      Max(LeftSpine(l), RightSpine(r))
  }

  /**
    `height()`: two counters start at -1 and step once per node down the left
    spine of the left child and the right spine of the right child; the
    result is one more than the larger counter.
   */
  method Height(t: Tree) returns (h: int)
    ensures h == -1 <==> t.Leaf?
    ensures t.Node? ==> h == Max(LeftSpine(t.left), RightSpine(t.right))
    ensures h <= TrueHeight(t)
  {
    if t.Leaf? {
      return -1;
    }
    var leftParent := t.left;
    var rightParent := t.right;
    var counter1 := -1;
    var counter2 := -1;
    while leftParent.Node?
      invariant counter1 + 1 + LeftSpine(leftParent) == LeftSpine(t.left)
      decreases leftParent
    {
      counter1 := counter1 + 1;
      leftParent := leftParent.left;
    }
    while rightParent.Node?
      invariant counter2 + 1 + RightSpine(rightParent) == RightSpine(t.right)
      decreases rightParent
    {
      counter2 := counter2 + 1;
      rightParent := rightParent.right;
    }
    h := Max(counter1, counter2) + 1;
    SpinesWithinHeight(t.left);
    SpinesWithinHeight(t.right);
  }

  /** Two counts below 2^p and 2^q, with p, q <= h, add up with one more to less than 2^(h+1). */
  lemma TwoBelowPow2(a: nat, b: nat, p: nat, q: nat, h: nat)
    requires a < Pow2(p) && b < Pow2(q) && p <= h && q <= h
    ensures a + 1 + b < Pow2(h + 1)
  {
    Pow2Monotone(p, h);
    Pow2Monotone(q, h);
  }

  /** A tree of height h holds fewer than 2^(h+1) nodes. */
  lemma {:induction false} CountBelowPow2(t: Tree)
    ensures NodeCount(t) < Pow2(TrueHeight(t) + 1)
  {
    match t
    case Leaf =>
    case Node(l, _, r) =>
      CountBelowPow2(l);
      CountBelowPow2(r);
      var hl, hr := TrueHeight(l) + 1, TrueHeight(r) + 1;
      var h := Max(hl, hr);
      assert TrueHeight(t) == h;
      TwoBelowPow2(NodeCount(l), NodeCount(r), hl, hr, h);
  }

  /**
    The spine count misses inner paths: here the left child's right branch
    makes the tree three links high, yet `height()` reports 1 and the tree
    holds more nodes than any tree of height 1 can.
   */
  lemma SpineHeightUndercounts()
    ensures var t := Node(Node(Leaf, 5, Node(Leaf, 7, Node(Leaf, 8, Leaf))), 10, Leaf);
      && SpineHeight(t) == 1
      && TrueHeight(t) == 3
      && NodeCount(t) >= Pow2(SpineHeight(t) + 1)
  {
  }
}
