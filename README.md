# AVL tree of distinct integers

A model of the generic AVL tree in `src/main/java/me/kmark43/avl/AvlTree.java`,
with the element type fixed to `int`. The tree holds a set of distinct values
in a self-balancing binary search tree. Every node caches its `height` and its
balance factor `bal` (right height minus left height).

Modules:

- `AvlNodes` (`avl_nodes.dfy`) defines the node datatype `Tree`, where `Nil` is
  the null child. It also defines the abstract views `Elements` (a set),
  `InOrder` (the in-order walk) and `Height` (recomputed from the shape). The
  representation invariant `Valid` is BST order plus `AVL`. `AVL` means accurate
  caches and every `|bal| <= 1`, which is what the consistency check asserts.
  The module also holds the cached-height helpers and `updateHeightAndBal`.
- `AvlRotations` (`avl_rotations.dfy`) holds `rotateRight`, `rotateLeft`,
  `restoreNodeRotation`, and `Rebalance`. `Rebalance` is the
  "update, then restore" pair that every mutator runs on the way back up.
- `AvlOps` (`avl_ops.dfy`) holds the recursive `contains`, `add` and `remove`
  on subtrees, plus the predecessor lookup `getLargestNode`. The mutators
  return the new subtree root, as the Java methods do.
- `Avl` (`avl_tree.dfy`) holds class `AvlTree`, with the mutable fields `root`
  and `size` and the public operations.
- `Rendering` (`render.dfy`) defines the `toString` format: decimal elements
  joined by `", "` inside brackets.
- `AvlScenarios` (`avl_scenarios.dfy`) replays several unit-test scenarios
  against the class contracts alone.

## Model

| member | source | states |
|---|---|---|
| `AvlNodes.MaxIsLargest` | src/main/java/me/kmark43/avl/AvlTree.java:210 | `Max`, the model of `Math.max`, is at least each argument and equal to one of them |
| `AvlNodes.StoredHeightIsHeight` | src/main/java/me/kmark43/avl/AvlTree.java:195-201 | `StoredHeight`, the cached height of a possibly absent child (0 for null), is the real height once the caches are accurate |
| `AvlNodes.LeftHeight` | src/main/java/me/kmark43/avl/AvlTree.java:195-197 | the left child's cached height, 0 when absent; the real height of the left subtree when its caches are accurate |
| `AvlNodes.RightHeight` | src/main/java/me/kmark43/avl/AvlTree.java:199-201 | the right child's cached height, 0 when absent; the real height of the right subtree when its caches are accurate |
| `AvlNodes.NodeBal` | src/main/java/me/kmark43/avl/AvlTree.java:203-205 | right minus left cached height; the real height difference of the children when their caches are accurate, and the node's cached balance when its own are |
| `AvlNodes.NewNode` | src/main/java/me/kmark43/avl/AvlTree.java:244-247 | a fresh node is a valid one-element AVL tree |
| `AvlNodes.UpdateHeightAndBal` | src/main/java/me/kmark43/avl/AvlTree.java:207-212 | value and children unchanged; if both children have accurate caches the node's caches become accurate; an already accurate node is left unchanged |
| `AvlNodes.CheckAccurateHeightAndBal` | src/main/java/me/kmark43/avl/AvlTree.java:220-235 | the check passes exactly when every cached height and balance matches the recomputed ones and every balance is in [-1, 1]; on success it returns the true height |
| `AvlNodes.ElementsAreInOrder` | src/main/java/me/kmark43/avl/AvlTree.java:175-181 | the in-order walk visits exactly the values of the tree |
| `AvlNodes.OrderedIffSorted` | src/main/java/me/kmark43/avl/AvlTree.java:175-181 | a tree is in BST order if and only if its in-order walk is strictly ascending |
| `AvlNodes.OrderedNodeIsSorted` | src/main/java/me/kmark43/avl/AvlTree.java:175-181 | the step of `OrderedIffSorted` from search order to an ascending walk at one node |
| `AvlNodes.SortedNodeIsOrdered` | src/main/java/me/kmark43/avl/AvlTree.java:175-181 | the step of `OrderedIffSorted` from an ascending walk to search order at one node |
| `AvlNodes.SameWalk` | src/main/java/me/kmark43/avl/AvlTree.java:126-146 | two trees with the same in-order walk hold the same values, and one is a search tree exactly when the other is, which is what a rotation needs to keep |
| `AvlNodes.InOrderCountsElements` | src/main/java/me/kmark43/avl/AvlTree.java:167-169 | in a search tree the walk has one entry per distinct value, so the node count equals the size of the value set |
| `AvlNodes.NodeCount` | src/main/java/me/kmark43/avl/AvlTree.java:237-248 | a node's own value and its two subtrees' values are pairwise distinct, so the counts add up |
| `AvlNodes.SortedIsUnique` | src/main/java/me/kmark43/avl/AvlTree.java:171-181 | two strictly ascending sequences with the same values are equal, so the traversal order is determined by the set |
| `AvlNodes.MinNodesMonotone` | src/main/java/me/kmark43/avl/AvlTree.java:220-235 | the minimum node count of an AVL tree grows with its height |
| `AvlNodes.FewestNodes` | src/main/java/me/kmark43/avl/AvlTree.java:220-235 | a valid tree of height h holds at least MinNodes(h) values (MinNodes(h) = MinNodes(h-1) + MinNodes(h-2) + 1) |
| `AvlNodes.MinNodesGrowth` | src/main/java/me/kmark43/avl/AvlTree.java:220-235 | MinNodes(h) + 1 >= 2^(h/2) |
| `AvlNodes.HeightIsLogarithmic` | src/main/java/me/kmark43/avl/AvlTree.java:220-235 | the invariant keeps the height logarithmic: 2^(height/2) <= n + 1 |
| `AvlRotations.RotateRight` | src/main/java/me/kmark43/avl/AvlTree.java:148-156 | the old left child becomes the root and the old root its right child; the in-order sequence is preserved; both touched nodes get accurate caches, the lower one first |
| `AvlRotations.RotateLeft` | src/main/java/me/kmark43/avl/AvlTree.java:158-165 | mirror of the right rotation: the old right child becomes the root, the in-order sequence is preserved, both touched nodes get accurate caches |
| `AvlRotations.RestoreNodeRotation` | src/main/java/me/kmark43/avl/AvlTree.java:126-146 | given AVL children, accurate caches and \|bal\| <= 2, it returns an AVL subtree with the same in-order sequence and values (and BST order if the input had it); a balanced node is returned unchanged; the new root is the heavy child (single rotation) or that child's inner child (double rotation); the height drops by one, except when the heavy child is even, where it stays |
| `AvlRotations.HeavySideIsPresent` | src/main/java/me/kmark43/avl/AvlTree.java:127-141 | with accurate caches, nodeBal equals the cached balance and the heavy side has a child, so the field reads in the rotation choice are safe |
| `AvlRotations.SingleRightRotation` | src/main/java/me/kmark43/avl/AvlTree.java:129-131 | balance -2 with a left child of balance <= 0: one right rotation gives an AVL tree one level lower, or the same height if the child was even |
| `AvlRotations.SingleLeftRotation` | src/main/java/me/kmark43/avl/AvlTree.java:136-138 | mirror case, balance 2 with a right child of balance >= 0 |
| `AvlRotations.DoubleRightRotation` | src/main/java/me/kmark43/avl/AvlTree.java:132-134 | balance -2 with a right-leaning left child: a left rotation of the child, then a right rotation, gives an AVL tree one level lower |
| `AvlRotations.DoubleLeftRotation` | src/main/java/me/kmark43/avl/AvlTree.java:139-141 | mirror case, right-left double rotation |
| `AvlRotations.LeansInwardFromLeft` | src/main/java/me/kmark43/avl/AvlTree.java:132-134 | when a node two levels heavier on the left has a right-leaning left child, the four subtrees a double rotation regroups are AVL trees within one or two levels of each other |
| `AvlRotations.LeansInwardFromRight` | src/main/java/me/kmark43/avl/AvlTree.java:139-141 | the mirror shape, before a right-left double rotation |
| `AvlRotations.JoinedIsAvl` | src/main/java/me/kmark43/avl/AvlTree.java:207-212 | recomputing the caches of a node over two AVL subtrees within one level of each other gives an AVL subtree one higher than the taller of them |
| `AvlRotations.Rebalance` | src/main/java/me/kmark43/avl/AvlTree.java:47-48 | updating then restoring a node whose children are AVL trees, with heights within 2 of each other, gives an AVL tree with the same in-order sequence; the height is pinned down for the balanced and both rotated cases |
| `AvlOps.Contains` | src/main/java/me/kmark43/avl/AvlTree.java:111-124 | a positive answer always means the value is present; on a BST the answer is exactly membership |
| `AvlOps.Add` | src/main/java/me/kmark43/avl/AvlTree.java:34-52 | a valid tree stays valid; the values become old plus the new one; a value already present leaves the subtree identical; the height grows by at most one, and a subtree that grew leans to one side |
| `AvlOps.AddedLeft` | src/main/java/me/kmark43/avl/AvlTree.java:39-40 | one unwinding step of insertion into the left subtree keeps the invariant, the value set and the height bounds |
| `AvlOps.AddedRight` | src/main/java/me/kmark43/avl/AvlTree.java:41-42 | the same for insertion into the right subtree |
| `AvlOps.GrewLeft` | src/main/java/me/kmark43/avl/AvlTree.java:39-48 | rebalancing a node whose left subtree grew by at most one level gives a subtree at most one level higher, which leans to one side when it did grow |
| `AvlOps.GrewRight` | src/main/java/me/kmark43/avl/AvlTree.java:41-48 | the same when the right subtree grew |
| `AvlOps.InsertionNeverMeetsEvenChild` | src/main/java/me/kmark43/avl/AvlTree.java:126-146 | on the insertion path a node at balance -2 or 2 never has an even heavy child, so that single-rotation case is needed only by removal |
| `AvlOps.Rightmost` | src/main/java/me/kmark43/avl/AvlTree.java:98-105 | on a non-empty subtree it returns a node without a right child that holds a value of the subtree, and on a BST that value is the maximum |
| `AvlOps.GetLargestNode` | src/main/java/me/kmark43/avl/AvlTree.java:98-105 | the while loop that follows right children returns exactly the rightmost node |
| `AvlOps.Remove` | src/main/java/me/kmark43/avl/AvlTree.java:65-96 | removing a present value from a valid tree gives a valid tree whose values are old minus that value; the height drops by at most one |
| `AvlOps.OnlyChild` | src/main/java/me/kmark43/avl/AvlTree.java:69-72 | a removed node with one child is replaced by that child: valid, one level lower, and untouched by rebalancing |
| `AvlOps.PromotedLeft` | src/main/java/me/kmark43/avl/AvlTree.java:73-75 | a left child without a right child takes the removed node's place and adopts its right subtree; the result is valid and holds every value except the removed one |
| `AvlOps.PromotedLargest` | src/main/java/me/kmark43/avl/AvlTree.java:76-81 | the predecessor, detached from the left subtree, takes over both subtrees; the result is valid and holds every value except the removed one |
| `AvlOps.RemovedLeft` | src/main/java/me/kmark43/avl/AvlTree.java:85-86 | one unwinding step of removal from the left subtree keeps the invariant, the value set and the height bounds |
| `AvlOps.RemovedRight` | src/main/java/me/kmark43/avl/AvlTree.java:87-88 | the same for removal from the right subtree |
| `AvlOps.ShrunkLeft` | src/main/java/me/kmark43/avl/AvlTree.java:92-93 | rebalancing a node whose left side lost at most one level leaves it at most one level lower |
| `AvlOps.ShrunkRight` | src/main/java/me/kmark43/avl/AvlTree.java:92-93 | the same for the right side |
| `AvlOps.SearchSide` | src/main/java/me/kmark43/avl/AvlTree.java:84-89 | in a BST a present value other than the node's lies on the side the comparison chooses |
| `AvlOps.LeftReplaced` | src/main/java/me/kmark43/avl/AvlTree.java:40 | a new left child below the node's value, within one level of the old, keeps BST order and a balance within 2 |
| `AvlOps.RightReplaced` | src/main/java/me/kmark43/avl/AvlTree.java:42 | the same for a new right child |
| `Avl.AvlTree.constructor` | src/main/java/me/kmark43/avl/AvlTree.java:11-12 | a new tree is empty, with size 0, and satisfies the invariant |
| `Avl.AvlTree.FromRoot` | src/main/java/me/kmark43/avl/AvlTree.java:14-18 | adopting a valid root whose size matches its node count satisfies the invariant |
| `Avl.AvlTree.Add` | src/main/java/me/kmark43/avl/AvlTree.java:20-32 | returns true exactly when the value was absent; the set becomes old plus the value; size goes up by one on success; on failure the root is unchanged; the invariant is kept |
| `Avl.AvlTree.Remove` | src/main/java/me/kmark43/avl/AvlTree.java:54-63 | returns true exactly when the value was present; the set becomes old minus the value; size goes down by one on success; on failure the root is unchanged; the invariant is kept |
| `Avl.AvlTree.Contains` | src/main/java/me/kmark43/avl/AvlTree.java:107-109 | true exactly when the value is in the tree |
| `Avl.AvlTree.Size` | src/main/java/me/kmark43/avl/AvlTree.java:167-169 | returns the number of distinct values held |
| `Avl.AvlTree.ForEach` | src/main/java/me/kmark43/avl/AvlTree.java:171-181 | visits every value of the tree, each once, in strictly ascending order |
| `Avl.AvlTree.ToString` | src/main/java/me/kmark43/avl/AvlTree.java:183-193 | the append-then-replace builder yields the bracketed ", "-joined decimal rendering of the in-order values, and "[]" for the empty tree |
| `Rendering.NatToString` | src/main/java/me/kmark43/avl/AvlTree.java:189 | a non-empty run of decimal digits without a leading zero |
| `Rendering.IntToString` | src/main/java/me/kmark43/avl/AvlTree.java:189 | non-empty; starts with '-' exactly for negative numbers; the rest is digits |
| `Rendering.ParseNatToString` | src/main/java/me/kmark43/avl/AvlTree.java:189 | reading the digits back gives the original natural number |
| `Rendering.ParseIntToString` | src/main/java/me/kmark43/avl/AvlTree.java:189 | reading the decimal form back gives the original integer, so distinct elements render distinctly |
| `Rendering.DecimalsInjective` | src/main/java/me/kmark43/avl/AvlTree.java:189 | distinct element sequences give distinct lists of decimal strings, so the rendering loses no information about the values |
| `Rendering.Render` | src/main/java/me/kmark43/avl/AvlTree.java:183-193 | the rendering is bracketed, and is "[]" exactly for the empty sequence |
| `Rendering.TerminatedSnoc` | src/main/java/me/kmark43/avl/AvlTree.java:189 | appending one more element and separator extends the builder text at its end |
| `Rendering.TerminatedIsJoined` | src/main/java/me/kmark43/avl/AvlTree.java:189-190 | for a non-empty list, every part followed by ", " is the ", "-join plus one trailing separator |
| `Rendering.AppendedOne` | src/main/java/me/kmark43/avl/AvlTree.java:189 | one iteration of the builder loop over the in-order values |
| `Rendering.AppendedPart` | src/main/java/me/kmark43/avl/AvlTree.java:189 | appending a part and a separator to the builder text |
| `Rendering.DecimalsSnoc` | src/main/java/me/kmark43/avl/AvlTree.java:189 | the decimal strings of a longer prefix extend those of the shorter one |
| `Rendering.ClosedBracket` | src/main/java/me/kmark43/avl/AvlTree.java:190 | replacing the final ", " of a non-empty builder by "]" gives the rendering |
| `AvlScenarios.HeightBelow` | src/test/java/me/kmark43/avl/AvlTests.java:51-59 | a valid tree with fewer than MinNodes(k) values is lower than k |
| `AvlScenarios.Counted` | src/test/java/me/kmark43/avl/AvlTests.java:51-59 | a strictly ascending sequence holding exactly 0 to n - 1 is 0, 1, ..., n - 1, so ten ordered additions traverse as 0 to 9 |
| `AvlScenarios.TenValuesAreLow` | src/test/java/me/kmark43/avl/AvlTests.java:51-59 | a valid tree with ten values has height at most 4 |
| `AvlScenarios.OneThreeFive` | src/test/java/me/kmark43/avl/AvlTests.java:88-96 | the only ascending traversal of the values 5, 1 and 3 is 1, 3, 5 |
| `AvlScenarios.RenderOneThreeFive` | src/test/java/me/kmark43/avl/AvlTests.java:88-96 | the values 1, 3, 5 render as "[1, 3, 5]" |
| `AvlScenarios.NestedRightShapeIsAvl` | src/test/java/me/kmark43/avl/AvlTests.java:163-172 | the root shape of the nested-right removal test has accurate cached heights and balances within [-1, 1], so it passes the AVL-only consistency check |
| `AvlScenarios.NestedRightIsNotSearchTree` | src/test/java/me/kmark43/avl/AvlTests.java:163-172 | with that test's values the root is not a search tree (31 lies right of 50), so it lies outside the class invariant |

The client methods in `AvlScenarios` replay several unit tests using only the
class contracts:

- `RepeatedAdd` is AvlTests.java:71-76.
- `AddThreeOutOfOrder` is AvlTests.java:88-96.
- `OrderedAdd` is AvlTests.java:51-59, with the height bound added. It shows that `toString` gives `Render` of 0, 1, ..., 9. It does not evaluate that rendering to the literal string the test compares with.
- `RemoveFromEmpty` is AvlTests.java:98-102.
- `RemoveOnlyValue` is AvlTests.java:110-116, for any value.

## Left out

- The `DEBUG` flag and Java `assert` in `checkRep` (AvlTree.java:6, 214-218) are not modelled. They are run-time switches. The check they switch on, `checkAccurateHeightAndBal` on the root, tests only the cached heights, the balances and `|bal| <= 1`. That condition is `AvlNodes.AVL(root)`, and `CheckAccurateHeightAndBal` is proved equivalent to it. It is one conjunct of the class invariant `Avl.AvlTree.Valid`. The other conjuncts, search-tree order and `size` equal to the number of values, are never checked at run time. The model proves that every operation keeps them.
- The element type is fixed to `int` instead of a generic `Comparable<T>`. With `int`, `equals` and `compareTo` agree, so the mix of the two in `remove` and `contains` needs no separate treatment.
- `forEach` takes a `Consumer` callback in Java. Here it returns the sequence of visited values, because arbitrary callback side effects are not modelled.
- Integer widths are not modelled. Java's `int` for `size`, `height` and `bal` would wrap only beyond 2^31 nodes, and Dafny integers are unbounded.
- Node identity and in-place relinking are modelled on values. Rotations and removals build new `Tree` values instead of reassigning `left`/`right` fields of shared objects. In `remove`, the reuse of the `largestNode` object is a copy of that node with new children. Its stale cached fields are overwritten by `updateHeightAndBal` right after, as in the source.
- `AvlOps.Remove` requires the value to be present. Java's private `remove(Node, T)` dereferences a null subtree otherwise. The public `remove` checks `contains` first (AvlTree.java:56). The recursive calls keep the value present: at line 78 the value removed is the rightmost node's own value (`Rightmost` ensures it lies in the left subtree), and at lines 86 and 88 `SearchSide` shows the value lies on the side searched.
- `AvlOps.Add` and `AvlOps.Remove` require a valid tree, which is the class invariant on entry to the public methods. Their behaviour on corrupted trees is not modelled.
- `Avl.AvlTree.FromRoot` requires a valid root and a `size` equal to its node count. Some unit tests pass a smaller `size` (AvlTests.java:176-185, 189-201). One test (AvlTests.java:163-172) builds a root that passes the AVL-only check (`AvlScenarios.NestedRightShapeIsAvl`) but is not a search tree, because 31 lies in the right subtree of 50 (`AvlScenarios.NestedRightIsNotSearchTree`). Those states are outside the model.
- Integer.toString is modelled as plain decimal with a leading '-'. `StringBuilder.replace` is modelled as dropping the last two characters and appending "]".
- The unit tests that build specific node shapes and check the output after a removal (AvlTests.java:118-232) are not evaluated on concrete trees. For the tests whose `size` argument matches their tree and whose tree is a search tree, `Avl.AvlTree.FromRoot`, `Avl.AvlTree.Remove`, `Avl.AvlTree.ForEach`, `AvlNodes.SortedIsUnique` and `Avl.AvlTree.ToString` determine the rendered output: the value set minus the removed value, in ascending order. Two tests (AvlTests.java:176-185 and 189-201) pass a `size` that does not match their tree, and one (AvlTests.java:163-172) places 31 in the right subtree of 50, so that its tree is not a search tree. `FromRoot` excludes these three, and no contract covers their output.
- The second pair of recursive calls in `checkAccurateHeightAndBal` (AvlTree.java:226) recomputes values already held in `leftHeight` and `rightHeight`. It is modelled once.
