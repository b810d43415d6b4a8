/**
 * The public face of the engine: a tree object holding the root of its
 * subtree, with insert, remove, the maximum query and the three traversals.
 */
module Engine {

  import opened Wrappers
  import opened Nodes
  import opened Sequences
  import opened Extremes
  import Insertion
  import Deletion
  import opened Traversals

  /** The message of the error raised when the maximum of an empty tree is asked for. */
  const EmptyTreeMessage: string := "Tree is empty."

  class BinarySearchTree {
    var root: Tree

    /** Every tree the engine builds keeps the search-tree ordering. */
    ghost predicate Valid()
      reads this
    {
      IsBst(root)
    }

    /** A new tree is empty. */
    constructor ()
      ensures Valid() && root == Leaf && Keys(root) == {}
    {
      root := Leaf;
    }

    /** Adds value to the tree; a value already present is silently ignored. */
    method Insert(value: int)
      requires Valid()
      modifies this
      ensures Valid()
      ensures root == Insertion.Insert(old(root), value)
      ensures Keys(root) == old(Keys(root)) + {value}
      ensures value in old(Keys(root)) ==> root == old(root)
    {
      if value in Keys(root) {
        Insertion.InsertPresent(root, value);
      }
      root := Insertion.Insert(root, value);
    }

    /** Takes value out of the tree; an absent value leaves the tree as it was. */
    method Remove(value: int)
      requires Valid()
      modifies this
      ensures Valid()
      ensures root == Deletion.Delete(old(root), value)
      ensures Keys(root) == old(Keys(root)) - {value}
      ensures value !in old(Keys(root)) ==> root == old(root)
    {
      root := Deletion.Delete(root, value);
    }

    /** The largest key, found by following right children from the root; fails on an empty tree. */
    method FindMaximum() returns (r: Result<int>)
      requires Valid()
      ensures r.Err? <==> root == Leaf
      ensures r.Err? ==> r.message == EmptyTreeMessage
      ensures r.Ok? ==> r.value in Keys(root) && forall k :: k in Keys(root) ==> k <= r.value
    {
      if root == Leaf {
        return Err(EmptyTreeMessage);
      }
      var current := root;
      while current.right != Leaf
        invariant current.Node?
        invariant RightmostNode(current) == RightmostNode(root)
        decreases current
      {
        current := current.right;
      }
      r := Ok(current.data);
      RightmostIsGreatest(root);
    }

    /** The keys in in-order: every key once, strictly ascending. */
    method InorderTraverse() returns (s: seq<int>)
      requires Valid()
      ensures s == Inorder(root)
      ensures StrictlyAscending(s)
      ensures forall k :: k in s <==> k in Keys(root)
    {
      s := Inorder(root);
      InorderAscending(root);
    }

    /** The keys in pre-order: the root first, the same keys as the in-order listing. */
    method PreorderTraverse() returns (s: seq<int>)
      requires Valid()
      ensures s == Preorder(root)
      ensures root.Node? ==> s[0] == root.data
      ensures multiset(s) == multiset(Inorder(root))
    {
      s := Preorder(root);
      TraversalsArePermutations(root);
    }

    /** The keys in post-order: the root last, the same keys as the in-order listing. */
    method PostorderTraverse() returns (s: seq<int>)
      requires Valid()
      ensures s == Postorder(root)
      ensures root.Node? ==> s[|s| - 1] == root.data
      ensures multiset(s) == multiset(Inorder(root))
    {
      s := Postorder(root);
      TraversalsArePermutations(root);
    }
  }
}
