/**
  The nodes of the AVL tree, the heights and balance factors they cache, and
  the representation invariant those caches must satisfy.
 */
module AvlNodes {

  datatype Option<T> = None | Some(value: T)

  /** A subtree. `Nil` stands for an absent (null) child reference; a `Node`
      carries its value, its cached height, its cached balance factor
      (right height minus left height) and its two children. */
  datatype Tree = Nil | Node(value: int, height: int, bal: int, left: Tree, right: Tree)

  /** The larger of two integers, as `Math.max`. */
  function Max(a: int, b: int): int {
    if a < b then b else a
  }

  /** A freshly allocated node: height 1, balance 0, no children. */
  function NewNode(value: int): (r: Tree)
    ensures AVL(r) && Ordered(r)
    ensures InOrder(r) == [value] && Elements(r) == {value}
  {
    Node(value, 1, 0, Nil, Nil)
  }

  // ---------------------------------------------------------------------
  // Abstract views of a subtree

  /** The values of a subtree, as a set. */
  ghost function Elements(t: Tree): set<int> {
    match t
    case Nil => {}
    case Node(v, _, _, l, r) => Elements(l) + {v} + Elements(r)
  }

  /** The values of a subtree in the order an in-order walk visits them. */
  function InOrder(t: Tree): seq<int> {
    match t
    case Nil => []
    case Node(v, _, _, l, r) => InOrder(l) + [v] + InOrder(r)
  }

  /** The height recomputed from the shape, ignoring every cached field. */
  ghost function Height(t: Tree): nat {
    match t
    case Nil => 0
    case Node(_, _, _, l, r) => Max(Height(l), Height(r)) + 1
  }

  ghost predicate StrictlySorted(s: seq<int>) {
    forall i, j :: 0 <= i < j < |s| ==> s[i] < s[j]
  }

  // ---------------------------------------------------------------------
  // The representation invariant

  /** Binary-search-tree order: left values below the node's, right values above. */
  ghost predicate Ordered(t: Tree) {
    match t
    case Nil => true
    case Node(v, _, _, l, r) =>
      Ordered(l) && Ordered(r) &&
      (forall x :: x in Elements(l) ==> x < v) &&
      (forall x :: x in Elements(r) ==> v < x)
  }

  /** Every cached height and balance agrees with the values recomputed from the children. */
  ghost predicate Accurate(t: Tree) {
    match t
    case Nil => true
    case Node(_, h, b, l, r) =>
      Accurate(l) && Accurate(r) &&
      h == Height(t) && b == Height(r) - Height(l)
  }

  /** Every cached balance lies in [-1, 1]. */
  ghost predicate Balanced(t: Tree) {
    match t
    case Nil => true
    case Node(_, _, b, l, r) => Balanced(l) && Balanced(r) && -1 <= b <= 1
  }

  /** What the consistency check asserts of a subtree. */
  ghost predicate AVL(t: Tree) {
    Accurate(t) && Balanced(t)
  }

  /** The full invariant kept by every public operation. */
  ghost predicate Valid(t: Tree) {
    Ordered(t) && AVL(t)
  }

  // ---------------------------------------------------------------------
  // Cached heights and their recomputation

  /** The height cached at the root of `t`, an absent subtree counting as 0. */
  function StoredHeight(t: Tree): int {
    if t.Nil? then 0 else t.height
  }

  /** The cached height of the left child; with accurate caches, its real height. */
  function LeftHeight(node: Tree): (r: int)
    requires node.Node?
    ensures Accurate(node.left) ==> r == Height(node.left)
  {
    StoredHeight(node.left)
  }

  /** The cached height of the right child; with accurate caches, its real height. */
  function RightHeight(node: Tree): (r: int)
    requires node.Node?
    ensures Accurate(node.right) ==> r == Height(node.right)
  {
    StoredHeight(node.right)
  }

  /** The balance recomputed from the children's cached heights: the real
      height difference of the children when their caches are accurate, and
      the node's own cached balance when its caches are. */
  function NodeBal(node: Tree): (r: int)
    requires node.Node?
    ensures Accurate(node.left) && Accurate(node.right) ==> r == Height(node.right) - Height(node.left)
    ensures Accurate(node) ==> r == node.bal
  {
    RightHeight(node) - LeftHeight(node)
  }

  /** Recomputes the cached height and balance of one node from the heights
      cached in its children; value and children are untouched. */
  function UpdateHeightAndBal(node: Tree): (r: Tree)
    requires node.Node?
    ensures r.Node? && r.value == node.value && r.left == node.left && r.right == node.right
    ensures Accurate(node.left) && Accurate(node.right) ==> Accurate(r)
    ensures Accurate(node) ==> r == node
  {
    var lHeight := LeftHeight(node);
    var rHeight := RightHeight(node);
    node.(height := Max(lHeight, rHeight) + 1, bal := rHeight - lHeight)
  }

  /** The recursive consistency check: `None` when one of its assertions
      would fail, otherwise the recomputed height of the subtree. */
  function CheckAccurateHeightAndBal(current: Tree): (r: Option<int>)
    ensures r.Some? <==> AVL(current)
    ensures r.Some? ==> r.value == Height(current)
  {
    match current
    case Nil => Some(0)
    case Node(_, h, b, l, rt) =>
      var leftHeight := CheckAccurateHeightAndBal(l);
      var rightHeight := CheckAccurateHeightAndBal(rt);
      if leftHeight.None? || rightHeight.None? then None
      else
        var height := Max(leftHeight.value, rightHeight.value) + 1;
        var bal := rightHeight.value - leftHeight.value;
        if height == h && bal == b && -1 <= b <= 1 then Some(height) else None
  }

  // ---------------------------------------------------------------------
  // Facts about the abstract views

  /** `Max` is the least upper bound of its arguments. */
  lemma MaxIsLargest(a: int, b: int)
    ensures Max(a, b) >= a && Max(a, b) >= b
    ensures Max(a, b) == a || Max(a, b) == b
  {
  }

  lemma StoredHeightIsHeight(t: Tree)
    requires Accurate(t)
    ensures StoredHeight(t) == Height(t)
  {
  }

  /** The set view and the in-order view hold the same values. */
  lemma {:induction false} ElementsAreInOrder(t: Tree)
    ensures forall x :: x in Elements(t) <==> x in InOrder(t)
  {
    match t
    case Nil =>
    case Node(_, _, _, l, r) =>
      ElementsAreInOrder(l);
      ElementsAreInOrder(r);
  }

  /** Two trees with the same in-order walk hold the same values, and one is
      a search tree exactly when the other is. */
  lemma SameWalk(a: Tree, b: Tree)
    requires InOrder(a) == InOrder(b)
    ensures Elements(a) == Elements(b)
    ensures Ordered(a) <==> Ordered(b)
  {
    ElementsAreInOrder(a);
    ElementsAreInOrder(b);
    assert Elements(a) == Elements(b) by {
      forall x ensures x in Elements(a) <==> x in Elements(b) { }
    }
    OrderedIffSorted(a);
    OrderedIffSorted(b);
  }

  /** A tree is a binary search tree exactly when its in-order walk is strictly ascending. */
  lemma {:induction false} OrderedIffSorted(t: Tree)
    ensures Ordered(t) <==> StrictlySorted(InOrder(t))
  {
    match t
    case Nil =>
    case Node(v, _, _, l, r) =>
      OrderedIffSorted(l);
      OrderedIffSorted(r);
      ElementsAreInOrder(l);
      ElementsAreInOrder(r);
      if Ordered(t) {
        OrderedNodeIsSorted(t);
      }
      if StrictlySorted(InOrder(t)) {
        SortedNodeIsOrdered(t);
      }
  }

  /** The step of `OrderedIffSorted` from order to an ascending walk, for one node. */
  lemma OrderedNodeIsSorted(t: Tree)
    requires t.Node? && Ordered(t)
    requires StrictlySorted(InOrder(t.left)) && StrictlySorted(InOrder(t.right))
    requires forall x :: x in Elements(t.left) <==> x in InOrder(t.left)
    requires forall x :: x in Elements(t.right) <==> x in InOrder(t.right)
    ensures StrictlySorted(InOrder(t))
  {
    var v, l, r := t.value, t.left, t.right;
    var s := InOrder(t);
    var sl, sr := InOrder(l), InOrder(r);
    assert s == sl + [v] + sr;
    forall i, j | 0 <= i < j < |s| ensures s[i] < s[j] {
      if j < |sl| {
      } else if i < |sl| {
        assert s[i] == sl[i] && sl[i] in Elements(l);
        if j > |sl| { assert s[j] == sr[j - |sl| - 1] && sr[j - |sl| - 1] in Elements(r); }
      } else if i == |sl| {
        assert s[j] == sr[j - |sl| - 1] && sr[j - |sl| - 1] in Elements(r);
      } else {
        assert s[i] == sr[i - |sl| - 1] && s[j] == sr[j - |sl| - 1];
      }
    }
  }

  /** The step of `OrderedIffSorted` from an ascending walk to order, for one node. */
  lemma SortedNodeIsOrdered(t: Tree)
    requires t.Node? && StrictlySorted(InOrder(t))
    requires StrictlySorted(InOrder(t.left)) ==> Ordered(t.left)
    requires StrictlySorted(InOrder(t.right)) ==> Ordered(t.right)
    requires forall x :: x in Elements(t.left) <==> x in InOrder(t.left)
    requires forall x :: x in Elements(t.right) <==> x in InOrder(t.right)
    ensures Ordered(t)
  {
    var v, l, r := t.value, t.left, t.right;
    var s := InOrder(t);
    var sl, sr := InOrder(l), InOrder(r);
    assert s == sl + [v] + sr;
    assert StrictlySorted(sl) by {
      forall i, j | 0 <= i < j < |sl| ensures sl[i] < sl[j] { assert s[i] == sl[i] && s[j] == sl[j]; }
    }
    assert StrictlySorted(sr) by {
      forall i, j | 0 <= i < j < |sr| ensures sr[i] < sr[j] {
        assert s[|sl| + 1 + i] == sr[i] && s[|sl| + 1 + j] == sr[j];
      }
    }
    forall x | x in Elements(l) ensures x < v {
      var i :| 0 <= i < |sl| && sl[i] == x;
      assert s[i] == x && s[|sl|] == v;
    }
    forall x | x in Elements(r) ensures v < x {
      var i :| 0 <= i < |sr| && sr[i] == x;
      assert s[|sl| + 1 + i] == x && s[|sl|] == v;
    }
  }

  /** Distinct nodes of a search tree hold distinct values, so the walk has no repeats. */
  lemma {:induction false} InOrderCountsElements(t: Tree)
    requires Ordered(t)
    ensures |InOrder(t)| == |Elements(t)|
  {
    match t
    case Nil =>
    case Node(v, _, _, l, r) =>
      InOrderCountsElements(l);
      InOrderCountsElements(r);
      NodeCount(t);
  }

  /** The values of the two subtrees and the node's own are pairwise distinct. */
  lemma NodeCount(t: Tree)
    requires t.Node? && Ordered(t)
    ensures |Elements(t)| == |Elements(t.left)| + |Elements(t.right)| + 1
  {
    var v, l, r := t.value, t.left, t.right;
    assert v !in Elements(l) && v !in Elements(r);
    assert Elements(l) * Elements(r) == {} by {
      forall x | x in Elements(l) && x in Elements(r) ensures false { }
    }
    assert |Elements(l) + {v}| == |Elements(l)| + 1;
  }

  // ---------------------------------------------------------------------
  // The height guarantee

  /** The fewest nodes an AVL tree of height `h` can have. */
  ghost function MinNodes(h: nat): nat {
    if h == 0 then 0 else if h == 1 then 1 else MinNodes(h - 1) + MinNodes(h - 2) + 1
  }

  lemma {:induction false} MinNodesMonotone(a: nat, b: nat)
    requires a <= b
    ensures MinNodes(a) <= MinNodes(b)
    decreases b
  {
    if a < b {
      MinNodesMonotone(a, b - 1);
    }
  }

  /** An AVL search tree of height `h` holds at least `MinNodes(h)` values. */
  lemma {:induction false} FewestNodes(t: Tree)
    requires Valid(t)
    ensures |Elements(t)| >= MinNodes(Height(t))
  {
    if t.Node? {
      var h := Height(t);
      FewestNodes(t.left);
      FewestNodes(t.right);
      NodeCount(t);
      if h >= 2 {
        var lo, hi := Height(t.left), Height(t.right);
        if lo > hi { lo, hi := hi, lo; }
        assert hi == h - 1 && lo >= h - 2;
        MinNodesMonotone(h - 2, lo);
      }
    }
  }

  function Pow2(n: nat): nat {
    if n == 0 then 1 else 2 * Pow2(n - 1)
  }

  lemma {:induction false} MinNodesGrowth(h: nat)
    ensures Pow2(h / 2) <= MinNodes(h) + 1
  {
    if h >= 2 {
      MinNodesGrowth(h - 2);
      MinNodesMonotone(h - 2, h - 1);
      assert (h - 2) / 2 + 1 == h / 2;
    }
  }

  /** The height stays logarithmic in the number of values: 2^(height/2) <= n + 1. */
  lemma HeightIsLogarithmic(t: Tree)
    requires Valid(t)
    ensures Pow2(Height(t) / 2) <= |Elements(t)| + 1
  {
    FewestNodes(t);
    MinNodesGrowth(Height(t));
  }

  /** A strictly ascending sequence is determined by the values it holds, so
      the traversal order of a set of values is unique. */
  lemma {:induction false} SortedIsUnique(a: seq<int>, b: seq<int>)
    requires StrictlySorted(a) && StrictlySorted(b)
    requires forall x :: x in a <==> x in b
    ensures a == b
  {
    assert a == [] <==> b == [] by {
      if a != [] { assert a[0] in a; }
      if b != [] { assert b[0] in b; }
    }
    if a != [] {
      assert a[0] == b[0] by {
        assert a[0] in a && b[0] in b;
        var i :| 0 <= i < |b| && b[i] == a[0];
        var j :| 0 <= j < |a| && a[j] == b[0];
        assert b[0] <= b[i] && a[0] <= a[j];
      }
      forall x ensures x in a[1..] <==> x in b[1..] {
        assert x in a[1..] <==> x in a && x != a[0];
        assert x in b[1..] <==> x in b && x != b[0];
      }
      SortedIsUnique(a[1..], b[1..]);
      assert a == [a[0]] + a[1..] && b == [b[0]] + b[1..];
    }
  }
}
