/**
  The two rotation primitives and the rebalancing step that picks a single or
  a double rotation for a node whose balance factor has reached -2 or 2.
 */
module AvlRotations {
  import opened AvlNodes

  /** Right rotation: the left child becomes the subtree root and takes the old
      root as its right child; the lower node is recomputed first. */
  function RotateRight(node: Tree): (r: Tree)
    requires node.Node? && node.left.Node?
    ensures r.Node? && r.value == node.left.value && r.right.Node? && r.right.value == node.value
    ensures r.left == node.left.left && r.right.left == node.left.right && r.right.right == node.right
    ensures InOrder(r) == InOrder(node)
    ensures Accurate(node.left.left) && Accurate(node.left.right) && Accurate(node.right) ==>
              Accurate(r.right) && Accurate(r)
  {
    var temp := node.left;
    var lowered := UpdateHeightAndBal(node.(left := temp.right));
    UpdateHeightAndBal(temp.(right := lowered))
  }

  /** Left rotation, the mirror image of `RotateRight`. */
  function RotateLeft(node: Tree): (r: Tree)
    requires node.Node? && node.right.Node?
    ensures r.Node? && r.value == node.right.value && r.left.Node? && r.left.value == node.value
    ensures r.right == node.right.right && r.left.right == node.right.left && r.left.left == node.left
    ensures InOrder(r) == InOrder(node)
    ensures Accurate(node.right.right) && Accurate(node.right.left) && Accurate(node.left) ==>
              Accurate(r.left) && Accurate(r)
  {
    var temp := node.right;
    var lowered := UpdateHeightAndBal(node.(right := temp.left));
    UpdateHeightAndBal(temp.(left := lowered))
  }

  /** Restores the AVL condition at a node whose children are AVL trees and
      whose own cached fields are current, with a balance factor of at most 2
      in absolute value. */
  function RestoreNodeRotation(current: Tree): (r: Tree)
    requires current.Node? && Accurate(current)
    requires Balanced(current.left) && Balanced(current.right)
    requires -2 <= current.bal <= 2
    ensures AVL(r)
    ensures InOrder(r) == InOrder(current) && Elements(r) == Elements(current)
    ensures Ordered(current) ==> Ordered(r)
    ensures -1 <= current.bal <= 1 ==> r == current
    ensures Height(current) - 1 <= Height(r) <= Height(current)
    // a rotation lowers the subtree by one, except when the taller child is
    // itself even, which only a removal can produce
    ensures current.bal == -2 ==>
              Height(r) == if current.left.Node? && current.left.bal == 0 then Height(current) else Height(current) - 1
    ensures current.bal == 2 ==>
              Height(r) == if current.right.Node? && current.right.bal == 0 then Height(current) else Height(current) - 1
    // the new subtree root: the heavy child for a single rotation, that
    // child's inner child for a double rotation
    ensures current.bal == -2 && current.left.Node? ==>
              if current.left.bal <= 0 then r.value == current.left.value
              else current.left.right.Node? && r.value == current.left.right.value
    ensures current.bal == 2 && current.right.Node? ==>
              if current.right.bal >= 0 then r.value == current.right.value
              else current.right.left.Node? && r.value == current.right.left.value
  {
    HeavySideIsPresent(current);
    var bal := NodeBal(current);
    var r :=
      if bal < -1 then
        HeavySideIsPresent(current.left);
        if current.left.bal <= 0 then
          SingleRightRotation(current);
          RotateRight(current)
        else
          DoubleRightRotation(current);
          RotateRight(current.(left := RotateLeft(current.left)))
      else if bal > 1 then
        HeavySideIsPresent(current.right);
        if current.right.bal >= 0 then
          SingleLeftRotation(current);
          RotateLeft(current)
        else
          DoubleLeftRotation(current);
          RotateLeft(current.(right := RotateRight(current.right)))
      else
        current;
    SameWalk(r, current);
    r
  }

  /** With accurate caches, `nodeBal` reads the cached balance, and a node
      leaning to one side has a child on that side. */
  lemma HeavySideIsPresent(n: Tree)
    requires n.Node? && Accurate(n)
    ensures NodeBal(n) == n.bal
    ensures n.bal < 0 ==> n.left.Node?
    ensures n.bal > 0 ==> n.right.Node?
  {
    StoredHeightIsHeight(n.left);
    StoredHeightIsHeight(n.right);
  }

  lemma SingleRightRotation(n: Tree)
    requires n.Node? && Accurate(n) && Balanced(n.left) && Balanced(n.right)
    requires n.bal == -2 && n.left.Node? && n.left.bal <= 0
    ensures AVL(RotateRight(n))
    ensures Height(RotateRight(n)) == if n.left.bal == 0 then Height(n) else Height(n) - 1
  {
    var r := RotateRight(n);
    assert Accurate(r.right) && Accurate(r);
  }

  lemma SingleLeftRotation(n: Tree)
    requires n.Node? && Accurate(n) && Balanced(n.left) && Balanced(n.right)
    requires n.bal == 2 && n.right.Node? && n.right.bal >= 0
    ensures AVL(RotateLeft(n))
    ensures Height(RotateLeft(n)) == if n.right.bal == 0 then Height(n) else Height(n) - 1
  {
    var r := RotateLeft(n);
    assert Accurate(r.left) && Accurate(r);
  }

  /** A left rotation of the left child followed by a right rotation: the
      two nodes that move down each join two subtrees within one level of
      each other, under the old inner grandchild. */
  lemma DoubleRightRotation(n: Tree)
    requires n.Node? && Accurate(n) && Balanced(n.left) && Balanced(n.right)
    requires n.bal == -2 && n.left.Node? && n.left.bal > 0 && n.left.right.Node?
    ensures AVL(RotateRight(n.(left := RotateLeft(n.left))))
    ensures Height(RotateRight(n.(left := RotateLeft(n.left)))) == Height(n) - 1
  {
    var x := n.left;
    var y := x.right;
    LeansInwardFromLeft(n);
    var p := x.(right := y.left);
    var q := n.(left := y.right);
    JoinedIsAvl(p);
    JoinedIsAvl(q);
    var l := RotateLeft(x);
    assert l == UpdateHeightAndBal(y.(left := UpdateHeightAndBal(p)));
    var top := l.(right := UpdateHeightAndBal(q));
    JoinedIsAvl(top);
    assert RotateRight(n.(left := l)) == UpdateHeightAndBal(top);
  }

  /** A right rotation of the right child followed by a left rotation. */
  lemma DoubleLeftRotation(n: Tree)
    requires n.Node? && Accurate(n) && Balanced(n.left) && Balanced(n.right)
    requires n.bal == 2 && n.right.Node? && n.right.bal < 0 && n.right.left.Node?
    ensures AVL(RotateLeft(n.(right := RotateRight(n.right))))
    ensures Height(RotateLeft(n.(right := RotateRight(n.right)))) == Height(n) - 1
  {
    var x := n.right;
    var y := x.left;
    LeansInwardFromRight(n);
    var p := x.(left := y.right);
    var q := n.(right := y.left);
    JoinedIsAvl(p);
    JoinedIsAvl(q);
    var rt := RotateRight(x);
    assert rt == UpdateHeightAndBal(y.(right := UpdateHeightAndBal(p)));
    var top := rt.(left := UpdateHeightAndBal(q));
    JoinedIsAvl(top);
    assert RotateLeft(n.(right := rt)) == UpdateHeightAndBal(top);
  }

  /** The shape a left-right double rotation starts from: below a node two
      levels heavier on the left, the left child leans towards its right child
      `y`, whose subtrees are one or two levels below the two outer subtrees. */
  lemma LeansInwardFromLeft(n: Tree)
    requires n.Node? && Accurate(n) && Balanced(n.left) && Balanced(n.right)
    requires n.bal == -2 && n.left.Node? && n.left.bal > 0 && n.left.right.Node?
    ensures AVL(n.left.left) && AVL(n.left.right.left) && AVL(n.left.right.right) && AVL(n.right)
    ensures var h := Height(n);
      Height(n.left.left) == h - 3 && Height(n.right) == h - 3 &&
      h - 4 <= Height(n.left.right.left) <= h - 3 && h - 4 <= Height(n.left.right.right) <= h - 3
  {
    assert Accurate(n.left) && Accurate(n.left.right) && Balanced(n.left.right);
  }

  /** The mirror shape, for a right-left double rotation. */
  lemma LeansInwardFromRight(n: Tree)
    requires n.Node? && Accurate(n) && Balanced(n.left) && Balanced(n.right)
    requires n.bal == 2 && n.right.Node? && n.right.bal < 0 && n.right.left.Node?
    ensures AVL(n.right.right) && AVL(n.right.left.left) && AVL(n.right.left.right) && AVL(n.left)
    ensures var h := Height(n);
      Height(n.right.right) == h - 3 && Height(n.left) == h - 3 &&
      h - 4 <= Height(n.right.left.left) <= h - 3 && h - 4 <= Height(n.right.left.right) <= h - 3
  {
    assert Accurate(n.right) && Accurate(n.right.left) && Balanced(n.right.left);
  }

  /** Recomputing a node over two AVL subtrees within one level of each other
      gives an AVL subtree one higher than the taller of them. */
  lemma JoinedIsAvl(node: Tree)
    requires node.Node? && AVL(node.left) && AVL(node.right)
    requires -1 <= Height(node.right) - Height(node.left) <= 1
    ensures AVL(UpdateHeightAndBal(node))
    ensures Height(UpdateHeightAndBal(node)) == Max(Height(node.left), Height(node.right)) + 1
  {
    StoredHeightIsHeight(node.left);
    StoredHeightIsHeight(node.right);
  }

  /** The step every mutator applies on the way back up: recompute the node's
      cached fields, then rotate if it has become unbalanced. */
  function Rebalance(node: Tree): (r: Tree)
    requires node.Node? && AVL(node.left) && AVL(node.right)
    requires -2 <= Height(node.right) - Height(node.left) <= 2
    ensures AVL(r)
    ensures InOrder(r) == InOrder(node) && Elements(r) == Elements(node)
    ensures Ordered(node) ==> Ordered(r)
    ensures AVL(node) ==> r == node
    ensures Max(Height(node.left), Height(node.right)) <= Height(r) <= Max(Height(node.left), Height(node.right)) + 1
    ensures -1 <= Height(node.right) - Height(node.left) <= 1 ==>
              r.value == node.value && r.left == node.left && r.right == node.right
    ensures Height(node.right) - Height(node.left) == -2 ==>
              Height(r) == if node.left.Node? && node.left.bal == 0 then Height(node.left) + 1 else Height(node.left)
    ensures Height(node.right) - Height(node.left) == 2 ==>
              Height(r) == if node.right.Node? && node.right.bal == 0 then Height(node.right) + 1 else Height(node.right)
  {
    RestoreNodeRotation(UpdateHeightAndBal(node))
  }
}
