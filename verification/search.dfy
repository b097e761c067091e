/**
  Read-only queries on a tree: three-way search (`find`, `__contains__`),
  the enumerating range query (`range_find`) and the in-order scans
  `successor` and `predecessor`.
 */
module Search {
  import opened Wrappers
  import opened Nodes

  /**
    Three-way descent: an equal item is returned, a smaller one is looked for
    on the left, anything else on the right. A hit is always an item of the
    tree equal to `x`; on a tree that keeps the ordering invariant every
    stored `x` is found.
   */
  function Find(t: Tree, x: int): (r: Option<int>)
    ensures r.Some? ==> r.value == x && x in Contents(t)
    ensures Ordered(t) && x in Contents(t) ==> r == Some(x)
  {
    match t
    case Leaf => None
    case Node(l, d, rt) =>
      if x == d then Some(d)
      else if x < d then Find(l, x)
      else Find(rt, x)
  }

  /** Membership (`__contains__`) is a hit of `Find`. */
  function Contains(t: Tree, x: int): (b: bool)
    ensures b ==> x in Contents(t)
    ensures Ordered(t) ==> (b <==> x in Contents(t))
  {
    Find(t, x) != None
  }

  predicate StrictlyIncreasing(s: seq<int>)
  {
    forall i, j | 0 <= i < j < |s| :: s[i] < s[j]
  }

  /**
    `range_find`: every integer from `low` to `high` inclusive, in order, for
    which `Find` hits. Empty when `high < low`.
   */
  method RangeFind(t: Tree, low: int, high: int) returns (r: seq<int>)
    ensures forall i :: i in r <==> low <= i <= high && Find(t, i).Some?
    ensures StrictlyIncreasing(r)
    ensures Ordered(t) ==> forall i :: i in r <==> low <= i <= high && i in Contents(t)
  {
    r := [];
    if high < low {
      return;
    }
    var i := low;
    while i <= high
      invariant low <= i <= high + 1
      invariant forall k :: k in r <==> low <= k < i && Find(t, k).Some?
      invariant forall j | 0 <= j < |r| :: r[j] < i
      invariant StrictlyIncreasing(r)
    {
      if Find(t, i) != None {
        r := r + [i];
      }
      i := i + 1;
    }
  }

  /** The least element of a non-empty sequence (Python's `min`). */
  function SeqMin(s: seq<int>): (m: int)
    requires |s| > 0
    ensures m in s
    ensures forall y | y in s :: m <= y
  {
    if |s| == 1 then s[0]
    else
      var rest := SeqMin(s[1..]);
      assert forall y | y in s :: y == s[0] || y in s[1..];
      if s[0] <= rest then s[0] else rest
  }

  /** The greatest element of a non-empty sequence (Python's `max`). */
  function SeqMax(s: seq<int>): (m: int)
    requires |s| > 0
    ensures m in s
    ensures forall y | y in s :: y <= m
  {
    if |s| == 1 then s[0]
    else
      var rest := SeqMax(s[1..]);
      assert forall y | y in s :: y == s[0] || y in s[1..];
      if s[0] >= rest then s[0] else rest
  }

  /**
    `successor`: the least stored item greater than `x`, or `None` when no
    stored item exceeds `x`. Works on any tree, ordered or not, because it
    scans the whole in-order reading.
   */
  method Successor(t: Tree, x: int) returns (r: Option<int>)
    ensures r.None? <==> forall y | y in Contents(t) :: y <= x
    ensures r.Some? ==> r.value in Contents(t) && x < r.value
    ensures r.Some? ==> forall y | y in Contents(t) && x < y :: r.value <= y
  {
    var items := Inorder(t);
    var result: seq<int> := [];
    var i := 0;
    while i < |items|
      invariant 0 <= i <= |items|
      invariant forall y :: y in result <==> y in items[..i] && x < y
    {
      if items[i] > x {
        result := result + [items[i]];
      }
      assert items[..i + 1] == items[..i] + [items[i]];
      i := i + 1;
    }
    assert items[..i] == items;
    InorderMembers(t);
    if result == [] {
      return None;
    }
    r := Some(SeqMin(result));
  }

  /**
    `predecessor`: the greatest stored item smaller than `x`, or `None` when
    no stored item is below `x`.
   */
  method Predecessor(t: Tree, x: int) returns (r: Option<int>)
    ensures r.None? <==> forall y | y in Contents(t) :: x <= y
    ensures r.Some? ==> r.value in Contents(t) && r.value < x
    ensures r.Some? ==> forall y | y in Contents(t) && y < x :: y <= r.value
  {
    var items := Inorder(t);
    var result: seq<int> := [];
    var i := 0;
    while i < |items|
      invariant 0 <= i <= |items|
      invariant forall y :: y in result <==> y in items[..i] && y < x
    {
      if items[i] < x {
        result := result + [items[i]];
      }
      assert items[..i + 1] == items[..i] + [items[i]];
      i := i + 1;
    }
    assert items[..i] == items;
    InorderMembers(t);
    if result == [] {
      return None;
    }
    r := Some(SeqMax(result));
  }
}
