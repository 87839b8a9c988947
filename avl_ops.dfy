/**
  The recursive operations on subtrees: search, insertion, removal and the
  predecessor lookup removal relies on. Each mutator returns the root of the
  new subtree, which the caller reattaches, as the Java methods do.
 */
module AvlOps {
  import opened AvlNodes
  import opened AvlRotations

  /** Search: compares for equality first, then descends to one side. */
  function Contains(current: Tree, value: int): (r: bool)
    ensures r ==> value in Elements(current)
    ensures Ordered(current) ==> (r <==> value in Elements(current))
  {
    if current.Nil? then false
    else if current.value == value then true
    else if value < current.value then Contains(current.left, value)
    else Contains(current.right, value)
  }

  /** Insertion: descends to an empty slot, attaches a fresh node there and
      rebalances every node on the way back up. A value already present
      leaves the subtree as it is. */
  function Add(current: Tree, value: int): (r: Tree)
    requires Valid(current)
    ensures Valid(r)
    ensures Elements(r) == Elements(current) + {value}
    ensures value in Elements(current) ==> r == current
    ensures Height(current) <= Height(r) <= Height(current) + 1
    // a non-empty subtree that grew leans towards the side that grew
    ensures current.Node? && Height(r) == Height(current) + 1 ==> r.bal != 0
  {
    if current.Nil? then
      NewNode(value)
    else if value < current.value then
      var left := Add(current.left, value);
      AddedLeft(current, value, left);
      Rebalance(current.(left := left))
    else if value > current.value then
      var right := Add(current.right, value);
      AddedRight(current, value, right);
      Rebalance(current.(right := right))
    else
      current
  }

  /** One level of insertion into the left subtree, after the recursive call. */
  lemma AddedLeft(current: Tree, value: int, left: Tree)
    requires current.Node? && Valid(current) && value < current.value
    requires Valid(left) && Elements(left) == Elements(current.left) + {value}
    requires value in Elements(current.left) ==> left == current.left
    requires Height(current.left) <= Height(left) <= Height(current.left) + 1
    requires current.left.Node? && Height(left) == Height(current.left) + 1 ==> left.bal != 0
    ensures AVL(current.right) && Ordered(current.(left := left))
    ensures -2 <= Height(current.right) - Height(left) <= 2
    ensures var r := Rebalance(current.(left := left));
      Valid(r) && Elements(r) == Elements(current) + {value} &&
      (value in Elements(current) ==> r == current) &&
      Height(current) <= Height(r) <= Height(current) + 1 &&
      (Height(r) == Height(current) + 1 ==> r.bal != 0)
  {
    LeftReplaced(current, left);
    var n := current.(left := left);
    assert Height(current) == Max(Height(current.left), Height(current.right)) + 1;
    assert Elements(n) == Elements(current) + {value};
    if value in Elements(current.left) {
      assert n == current;
    } else {
      assert Height(left) == Height(current.left) + 1 && Height(current.right) == Height(current.left) - 1 ==>
        current.left.Node?;
      GrewLeft(n, Height(current.left));
    }
  }

  /** One level of insertion into the right subtree, after the recursive call. */
  lemma AddedRight(current: Tree, value: int, right: Tree)
    requires current.Node? && Valid(current) && value > current.value
    requires Valid(right) && Elements(right) == Elements(current.right) + {value}
    requires value in Elements(current.right) ==> right == current.right
    requires Height(current.right) <= Height(right) <= Height(current.right) + 1
    requires current.right.Node? && Height(right) == Height(current.right) + 1 ==> right.bal != 0
    ensures AVL(current.left) && Ordered(current.(right := right))
    ensures -2 <= Height(right) - Height(current.left) <= 2
    ensures var r := Rebalance(current.(right := right));
      Valid(r) && Elements(r) == Elements(current) + {value} &&
      (value in Elements(current) ==> r == current) &&
      Height(current) <= Height(r) <= Height(current) + 1 &&
      (Height(r) == Height(current) + 1 ==> r.bal != 0)
  {
    RightReplaced(current, right);
    var n := current.(right := right);
    assert Height(current) == Max(Height(current.left), Height(current.right)) + 1;
    assert Elements(n) == Elements(current) + {value};
    if value in Elements(current.right) {
      assert n == current;
    } else {
      assert Height(right) == Height(current.right) + 1 && Height(current.left) == Height(current.right) - 1 ==>
        current.right.Node?;
      GrewRight(n, Height(current.right));
    }
  }

  /** Rebalancing a node whose left side gained at most one level over a
      subtree that was within one of its right sibling: the result is at most
      one higher than the node was, and leans to one side when it grew. */
  lemma GrewLeft(n: Tree, was: nat)
    requires n.Node? && AVL(n.left) && AVL(n.right)
    requires was <= Height(n.left) <= was + 1 && -1 <= Height(n.right) - was <= 1
    requires Height(n.left) == was + 1 && Height(n.right) == was - 1 ==> n.left.Node? && n.left.bal != 0
    ensures -2 <= Height(n.right) - Height(n.left) <= 2
    ensures var h := Max(was, Height(n.right)) + 1;
      h <= Height(Rebalance(n)) <= h + 1 &&
      (Height(Rebalance(n)) == h + 1 ==> Rebalance(n).bal != 0)
  {
    var r := Rebalance(n);
    if Height(n.right) - Height(n.left) >= -1 {
      assert Accurate(r) && r.left == n.left && r.right == n.right;
    }
  }

  lemma GrewRight(n: Tree, was: nat)
    requires n.Node? && AVL(n.left) && AVL(n.right)
    requires was <= Height(n.right) <= was + 1 && -1 <= Height(n.left) - was <= 1
    requires Height(n.right) == was + 1 && Height(n.left) == was - 1 ==> n.right.Node? && n.right.bal != 0
    ensures -2 <= Height(n.right) - Height(n.left) <= 2
    ensures var h := Max(Height(n.left), was) + 1;
      h <= Height(Rebalance(n)) <= h + 1 &&
      (Height(Rebalance(n)) == h + 1 ==> Rebalance(n).bal != 0)
  {
    var r := Rebalance(n);
    if Height(n.right) - Height(n.left) <= 1 {
      assert Accurate(r) && r.left == n.left && r.right == n.right;
    }
  }

  /** On the insertion path a node that reaches balance -2 or 2 always has a
      heavy child that leans the same way or the other way, never an even
      one: the single rotation for an even child serves removal only. */
  lemma {:induction false} InsertionNeverMeetsEvenChild(current: Tree, value: int)
    requires Valid(current) && current.Node?
    ensures value < current.value ==>
              var n := UpdateHeightAndBal(current.(left := Add(current.left, value)));
              n.bal == -2 ==> n.left.Node? && n.left.bal != 0
    ensures value > current.value ==>
              var n := UpdateHeightAndBal(current.(right := Add(current.right, value)));
              n.bal == 2 ==> n.right.Node? && n.right.bal != 0
  {
  }

  /** The rightmost node of a subtree, reached by following right children:
      it has no right child and holds the largest value. */
  function Rightmost(current: Tree): (r: Tree)
    ensures r.Node? <==> current.Node?
    ensures current.Node? ==> r.right.Nil? && r.value in Elements(current)
    ensures Ordered(current) ==> forall x :: x in Elements(current) ==> x <= r.value
  {
    if current.Nil? || current.right.Nil? then current else Rightmost(current.right)
  }

  /** The loop form of the predecessor lookup. */
  method GetLargestNode(current: Tree) returns (r: Tree)
    ensures r == Rightmost(current)
  {
    r := current;
    if r.Node? {
      while r.right.Node?
        invariant r.Node? && Rightmost(r) == Rightmost(current)
        decreases r
      {
        r := r.right;
      }
    }
  }

  /** Removal of a value known to be present. A leaf disappears; a node with
      one child is replaced by it; a node whose left child has no right child
      is replaced by that left child; otherwise the largest node of the left
      subtree is detached and takes the removed node's place. */
  function Remove(current: Tree, value: int): (r: Tree)
    requires Valid(current) && value in Elements(current)
    ensures Valid(r)
    ensures Elements(r) == Elements(current) - {value}
    ensures Height(current) - 1 <= Height(r) <= Height(current)
  {
    if current.value == value then
      if current.left.Nil? && current.right.Nil? then
        Nil
      else if current.left.Nil? then
        OnlyChild(current);
        Rebalance(current.right)
      else if current.right.Nil? then
        OnlyChild(current);
        Rebalance(current.left)
      else if current.left.right.Nil? then
        PromotedLeft(current);
        Rebalance(current.left.(right := current.right))
      else
        var largestNode := Rightmost(current.left);
        var left := Remove(current.left, largestNode.value);
        PromotedLargest(current, largestNode, left);
        Rebalance(largestNode.(left := left, right := current.right))
    else if value < current.value then
      SearchSide(current, value);
      var left := Remove(current.left, value);
      RemovedLeft(current, value, left);
      Rebalance(current.(left := left))
    else
      SearchSide(current, value);
      var right := Remove(current.right, value);
      RemovedRight(current, value, right);
      Rebalance(current.(right := right))
  }

  /** Removing a root that has exactly one child: the child, already an AVL
      tree one level lower, is left as it is by the rebalancing step. */
  lemma OnlyChild(current: Tree)
    requires current.Node? && Valid(current) && (current.left.Nil? != current.right.Nil?)
    ensures current.left.Nil? ==>
      current.right.Node? && Valid(current.right) && Rebalance(current.right) == current.right &&
      Elements(current.right) == Elements(current) - {current.value} &&
      Height(current.right) == Height(current) - 1
    ensures current.right.Nil? ==>
      current.left.Node? && Valid(current.left) && Rebalance(current.left) == current.left &&
      Elements(current.left) == Elements(current) - {current.value} &&
      Height(current.left) == Height(current) - 1
  {
    var v := current.value;
    var child := if current.left.Nil? then current.right else current.left;
    assert v !in Elements(child);
    assert Valid(child) && child.Node?;
    assert Accurate(child.left) && Accurate(child.right) && Balanced(child);
    assert Elements(current) == Elements(child) + {v};
    assert Height(child) == Height(current) - 1;
  }

  /** Removing the root when its left child has no right child: the left
      child moves up and adopts the root's right subtree. */
  lemma PromotedLeft(current: Tree)
    requires current.Node? && Valid(current)
    requires current.left.Node? && current.right.Node? && current.left.right.Nil?
    ensures var n := current.left.(right := current.right);
      AVL(n.left) && AVL(n.right) && -2 <= Height(n.right) - Height(n.left) <= 2 && Ordered(n) &&
      var r := Rebalance(n);
      Valid(r) && Elements(r) == Elements(current) - {current.value} &&
      Height(current) - 1 <= Height(r) <= Height(current)
  {
    var l := current.left;
    var n := l.(right := current.right);
    assert Accurate(l) && Balanced(l) && Ordered(l);
    assert Height(l.left) == Height(l) - 1;
    assert current.value !in Elements(l) && current.value !in Elements(current.right);
    assert Elements(n) == Elements(current) - {current.value};
    ShrunkLeft(n, Height(l));
  }

  /** Removing the root in the general case: the largest node of the left
      subtree, detached from it, takes over both subtrees. */
  lemma PromotedLargest(current: Tree, largestNode: Tree, left: Tree)
    requires current.Node? && Valid(current) && current.left.Node? && current.right.Node?
    requires largestNode == Rightmost(current.left)
    requires Valid(left) && Elements(left) == Elements(current.left) - {largestNode.value}
    requires Height(current.left) - 1 <= Height(left) <= Height(current.left)
    ensures var n := largestNode.(left := left, right := current.right);
      AVL(n.left) && AVL(n.right) && -2 <= Height(n.right) - Height(n.left) <= 2 && Ordered(n) &&
      var r := Rebalance(n);
      Valid(r) && Elements(r) == Elements(current) - {current.value} &&
      Height(current) - 1 <= Height(r) <= Height(current)
  {
    var n := largestNode.(left := left, right := current.right);
    var top := largestNode.value;
    assert top in Elements(current.left) && top < current.value;
    assert current.value !in Elements(current.left) && current.value !in Elements(current.right);
    assert Ordered(n) by {
      forall x | x in Elements(left) ensures x < top {
        assert x in Elements(current.left) && x != top;
      }
      forall x | x in Elements(current.right) ensures top < x {
        assert top < current.value < x;
      }
    }
    assert Elements(n) == Elements(current) - {current.value};
    assert Height(current) == Max(Height(current.left), Height(current.right)) + 1;
    ShrunkLeft(n, Height(current.left));
  }

  /** One level of removal from the left subtree, after the recursive call. */
  lemma RemovedLeft(current: Tree, value: int, left: Tree)
    requires current.Node? && Valid(current) && value < current.value && value in Elements(current.left)
    requires Valid(left) && Elements(left) == Elements(current.left) - {value}
    requires Height(current.left) - 1 <= Height(left) <= Height(current.left)
    ensures AVL(current.right) && Ordered(current.(left := left))
    ensures -2 <= Height(current.right) - Height(left) <= 2
    ensures var r := Rebalance(current.(left := left));
      Valid(r) && Elements(r) == Elements(current) - {value} &&
      Height(current) - 1 <= Height(r) <= Height(current)
  {
    LeftReplaced(current, left);
    var n := current.(left := left);
    assert Height(current) == Max(Height(current.left), Height(current.right)) + 1;
    assert value !in Elements(current.right);
    assert Elements(n) == Elements(current) - {value};
    ShrunkLeft(n, Height(current.left));
  }

  /** One level of removal from the right subtree, after the recursive call. */
  lemma RemovedRight(current: Tree, value: int, right: Tree)
    requires current.Node? && Valid(current) && value > current.value && value in Elements(current.right)
    requires Valid(right) && Elements(right) == Elements(current.right) - {value}
    requires Height(current.right) - 1 <= Height(right) <= Height(current.right)
    ensures AVL(current.left) && Ordered(current.(right := right))
    ensures -2 <= Height(right) - Height(current.left) <= 2
    ensures var r := Rebalance(current.(right := right));
      Valid(r) && Elements(r) == Elements(current) - {value} &&
      Height(current) - 1 <= Height(r) <= Height(current)
  {
    RightReplaced(current, right);
    var n := current.(right := right);
    assert Height(current) == Max(Height(current.left), Height(current.right)) + 1;
    assert value !in Elements(current.left);
    assert Elements(n) == Elements(current) - {value};
    ShrunkRight(n, Height(current.right));
  }

  /** Rebalancing a node whose left side lost at most one level of a subtree
      that was within one of its right sibling: the result is at most one
      lower than the node was. */
  lemma ShrunkLeft(n: Tree, was: int)
    requires n.Node? && AVL(n.left) && AVL(n.right)
    requires was - 1 <= Height(n.left) <= was && -1 <= Height(n.right) - was <= 1
    ensures -2 <= Height(n.right) - Height(n.left) <= 2
    ensures Max(was, Height(n.right)) <= Height(Rebalance(n)) <= Max(was, Height(n.right)) + 1
  {
  }

  lemma ShrunkRight(n: Tree, was: int)
    requires n.Node? && AVL(n.left) && AVL(n.right)
    requires was - 1 <= Height(n.right) <= was && -1 <= Height(n.left) - was <= 1
    ensures -2 <= Height(n.right) - Height(n.left) <= 2
    ensures Max(Height(n.left), was) <= Height(Rebalance(n)) <= Max(Height(n.left), was) + 1
  {
  }

  /** In a search tree a value other than the root's lies on the side the comparison picks. */
  lemma SearchSide(t: Tree, value: int)
    requires t.Node? && Ordered(t) && value in Elements(t) && value != t.value
    ensures value < t.value ==> value in Elements(t.left)
    ensures value > t.value ==> value in Elements(t.right)
  {
  }

  /** Replacing the left child of a valid node by a valid subtree of nearly
      the same height, whose values stay below the node's, keeps the node
      ordered and leaves it at most two out of balance. */
  lemma LeftReplaced(t: Tree, l: Tree)
    requires t.Node? && Valid(t) && Valid(l)
    requires forall x :: x in Elements(l) ==> x < t.value
    requires -1 <= Height(l) - Height(t.left) <= 1
    ensures AVL(t.right) && Ordered(t.(left := l))
    ensures -2 <= Height(t.right) - Height(l) <= 2
  {
  }

  lemma RightReplaced(t: Tree, r: Tree)
    requires t.Node? && Valid(t) && Valid(r)
    requires forall x :: x in Elements(r) ==> t.value < x
    requires -1 <= Height(r) - Height(t.right) <= 1
    ensures AVL(t.left) && Ordered(t.(right := r))
    ensures -2 <= Height(r) - Height(t.left) <= 2
  {
  }
}
