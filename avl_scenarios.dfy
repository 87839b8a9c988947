/** Scenarios of the unit tests, replayed against the contracts of the tree object alone. */
module AvlScenarios {
  import opened AvlNodes
  import opened Rendering
  import opened Avl

  method RepeatedAdd() {
    var tree := new AvlTree();
    var first := tree.Add(5);
    var second := tree.Add(5);
    var n := tree.Size();
    assert first && !second && n == 1;
  }

  method AddThreeOutOfOrder() {
    var tree := new AvlTree();
    var a := tree.Add(5);
    var b := tree.Add(1);
    var c := tree.Add(3);
    var n := tree.Size();
    assert n == 3;
    var visited := tree.ForEach();
    OneThreeFive(visited);
    var s := tree.ToString();
    RenderOneThreeFive();
    assert s == "[1, 3, 5]";
  }

  method OrderedAdd() {
    var tree := new AvlTree();
    for i := 0 to 10
      invariant tree.Valid() && tree.size == i
      invariant forall x :: x in tree.Contents() <==> 0 <= x < i
    {
      var added := tree.Add(i);
    }
    var visited := tree.ForEach();
    Counted(visited, 10);
    var s := tree.ToString();
    assert s == Render(seq(10, i => i));
    TenValuesAreLow(tree.root);
  }

  /** Ten values fit in height 4: height 5 needs at least 12 nodes. */
  lemma TenValuesAreLow(t: Tree)
    requires Valid(t) && |Elements(t)| == 10
    ensures Height(t) <= 4
  {
    assert MinNodes(5) == 12;
    HeightBelow(t, 5);
  }

  /** A strictly ascending sequence holding exactly 0, 1, ..., n - 1 counts up from 0. */
  lemma Counted(s: seq<int>, n: nat)
    requires StrictlySorted(s)
    requires forall x :: x in s <==> 0 <= x < n
    ensures s == seq(n, i => i)
  {
    var ids := seq(n, i => i);
    assert StrictlySorted(ids);
    forall x ensures x in ids <==> 0 <= x < n {
      if 0 <= x < n { assert ids[x] == x; }
    }
    SortedIsUnique(s, ids);
  }

  method RemoveFromEmpty() {
    var tree := new AvlTree();
    var removed := tree.Remove(5);
    var n := tree.Size();
    assert !removed && n == 0;
  }

  method RemoveOnlyValue(v: int) {
    var root := NewNode(v);
    assert |Elements(root)| == 1;
    var tree := new AvlTree.FromRoot(root, 1);
    var removed := tree.Remove(v);
    var n := tree.Size();
    var found := tree.Contains(v);
    assert removed && n == 0 && !found;
  }

  lemma HeightBelow(t: Tree, k: nat)
    requires Valid(t) && |Elements(t)| < MinNodes(k)
    ensures Height(t) < k
  {
    FewestNodes(t);
    if Height(t) >= k {
      MinNodesMonotone(k, Height(t));
    }
  }

  /** The only ascending arrangement of 1, 3 and 5. */
  lemma OneThreeFive(s: seq<int>)
    requires StrictlySorted(s)
    requires forall x :: x in s <==> x in {5, 1, 3}
    ensures s == [1, 3, 5]
  {
    SortedIsUnique(s, [1, 3, 5]);
  }

  lemma RenderOneThreeFive()
    ensures Render([1, 3, 5]) == "[1, 3, 5]"
  {
    assert IntToString(1) == "1" && IntToString(3) == "3" && IntToString(5) == "5" by {
      assert DigitChar(1) == '1' && DigitChar(3) == '3' && DigitChar(5) == '5';
    }
    var parts := Decimals([1, 3, 5]);
    assert parts == ["1", "3", "5"];
    assert parts[1..] == ["3", "5"] && parts[1..][1..] == ["5"];
  }

  /** A childless node with accurate caches, as the tests build it with
      `node(v, 1, 0, null, null)`. */
  ghost predicate Leaf(t: Tree) {
    t.Node? && t.height == 1 && t.bal == 0 && t.left == Nil && t.right == Nil
  }

  lemma LeafIsAvl(t: Tree)
    requires Leaf(t)
    ensures AVL(t) && Height(t) == 1
  {
    assert Height(t) == Max(0, 0) + 1;
  }

  lemma NodeIsAvl(t: Tree)
    requires t.Node? && AVL(t.left) && AVL(t.right)
    requires t.height == Max(Height(t.left), Height(t.right)) + 1
    requires t.bal == Height(t.right) - Height(t.left) && -1 <= t.bal <= 1
    ensures AVL(t) && Height(t) == t.height
  {
  }

  /** The shape of the root that the nested-right removal test builds (a leaf
      on the left, and on the right a node of height 2 whose only child is a
      left leaf) passes the AVL-only consistency check, whatever its values. */
  lemma NestedRightShapeIsAvl(t: Tree)
    requires t.Node? && t.height == 3 && t.bal == 1 && Leaf(t.left)
    requires t.right.Node? && t.right.height == 2 && t.right.bal == -1
    requires Leaf(t.right.left) && t.right.right == Nil
    ensures AVL(t)
  {
    LeafIsAvl(t.left);
    LeafIsAvl(t.right.left);
    NodeIsAvl(t.right);
    NodeIsAvl(t);
  }

  /** With the test's values (50 over 30 and 70, and 31 as the left child of
      70) that root is not a search tree: 31 lies to the right of 50. So no
      valid tree has that shape, and the test's state is outside the model. */
  lemma NestedRightIsNotSearchTree(t: Tree)
    requires t.Node? && t.value == 50 && t.height == 3 && t.bal == 1
    requires Leaf(t.left) && t.left.value == 30
    requires t.right.Node? && t.right.value == 70 && t.right.height == 2 && t.right.bal == -1
    requires Leaf(t.right.left) && t.right.left.value == 31 && t.right.right == Nil
    ensures !Ordered(t)
  {
    assert Elements(t.right.left) == {31};
    assert 31 in Elements(t.right);
  }
}
