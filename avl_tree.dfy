/**
  The tree object: an owned root and a count of the values it holds. Every
  public operation keeps the representation invariant, which the consistency
  check of the Java class verifies at run time.
 */
module Avl {
  import opened AvlNodes
  import AvlOps
  import opened Rendering

  class AvlTree {
    var root: Tree
    var size: int

    /** The class invariant: the root is an AVL search tree and `size` counts its values. */
    ghost predicate Valid()
      reads this
    {
      AvlNodes.Valid(root) && size == |Elements(root)|
    }

    /** The set of values held. */
    ghost function Contents(): set<int>
      reads this
    {
      Elements(root)
    }

    constructor ()
      ensures Valid() && root == Nil && size == 0 && Contents() == {}
    {
      root := Nil;
      size := 0;
    }

    /** Adopts an existing subtree, which must already satisfy the invariant. */
    constructor FromRoot(root: Tree, size: int)
      requires AvlNodes.Valid(root) && size == |Elements(root)|
      ensures Valid() && this.root == root && this.size == size
    {
      this.root := root;
      this.size := size;
    }

    method Add(value: int) returns (added: bool)
      requires Valid()
      modifies this
      ensures Valid()
      ensures added <==> value !in old(Contents())
      ensures Contents() == old(Contents()) + {value}
      ensures size == if added then old(size) + 1 else old(size)
      ensures !added ==> root == old(root)
    {
      var present := Contains(value);
      if !present {
        root := AvlOps.Add(root, value);
        size := size + 1;
        return true;
      }
      return false;
    }

    method Remove(value: int) returns (removed: bool)
      requires Valid()
      modifies this
      ensures Valid()
      ensures removed <==> value in old(Contents())
      ensures Contents() == old(Contents()) - {value}
      ensures size == if removed then old(size) - 1 else old(size)
      ensures !removed ==> root == old(root)
    {
      var present := Contains(value);
      if present {
        root := AvlOps.Remove(root, value);
        size := size - 1;
        return true;
      }
      return false;
    }

    method Contains(value: int) returns (found: bool)
      requires Valid()
      ensures found <==> value in Contents()
    {
      found := AvlOps.Contains(root, value);
    }

    method Size() returns (n: int)
      requires Valid()
      ensures n == |Contents()|
    {
      n := size;
    }

    /** The values in the order the traversal hands them to its consumer. */
    method ForEach() returns (visited: seq<int>)
      requires Valid()
      ensures StrictlySorted(visited)
      ensures forall x :: x in visited <==> x in Contents()
      ensures |visited| == size
      ensures visited == InOrder(root)
    {
      visited := InOrder(root);
      OrderedIffSorted(root);
      ElementsAreInOrder(root);
      InOrderCountsElements(root);
    }

    /** Appends each value and a separator, then replaces the final separator
        by the closing bracket; an empty tree renders as "[]". */
    method ToString() returns (s: string)
      requires Valid()
      ensures s == Render(InOrder(root))
    {
      if size == 0 {
        assert root == Nil;
        return "[]";
      }
      var xs := ForEach();
      var builder := "[";
      var i := 0;
      while i < |xs|
        invariant 0 <= i <= |xs|
        invariant builder == "[" + Terminated(Decimals(xs[..i]))
      {
        AppendedOne(xs, i, builder);
        builder := builder + IntToString(xs[i]) + ", ";
        i := i + 1;
      }
      assert xs[..i] == xs;
      s := builder[..|builder| - 2] + "]";
      ClosedBracket(xs, builder);
    }
  }
}
