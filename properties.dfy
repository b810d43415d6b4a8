/**
 * Properties that relate the updates to the traversals: how an insertion or a
 * deletion changes the in-order listing, and what a run of insertions builds.
 */
module TreeProperties {

  import opened Nodes
  import opened Sequences
  import opened Extremes
  import opened Insertion
  import opened Deletion
  import opened Traversals

  /** Inserting v into a search tree places v at its ordered position in the in-order listing (or leaves it as it was). */
  lemma InorderAfterInsert(t: Tree, v: int)
    requires IsBst(t)
    ensures Inorder(Insert(t, v)) == InsertSorted(Inorder(t), v)
  {
    InorderAscending(t);
    InorderAscending(Insert(t, v));
    InsertSortedAscending(Inorder(t), v);
    AscendingUnique(Inorder(Insert(t, v)), InsertSorted(Inorder(t), v));
  }

  /** Deleting v from a search tree takes v out of the in-order listing and leaves the rest in order. */
  lemma InorderAfterDelete(t: Tree, v: int)
    requires IsBst(t)
    ensures Inorder(Delete(t, v)) == Without(Inorder(t), v)
  {
    InorderAscending(t);
    InorderAscending(Delete(t, v));
    WithoutAscending(Inorder(t), v);
    AscendingUnique(Inorder(Delete(t, v)), Without(Inorder(t), v));
  }

  /** The tree reached by inserting the values of xs one after another, in order. */
  function InsertAll(t: Tree, xs: seq<int>): Tree
    decreases |xs|
  {
    if xs == [] then t else InsertAll(Insert(t, xs[0]), xs[1..])
  }

  /**
   * Whatever values are inserted, and in whatever order, the tree stays a
   * search tree holding exactly the inserted keys, and its in-order listing
   * is strictly ascending.
   */
  lemma {:induction false} InsertAllSound(t: Tree, xs: seq<int>)
    requires IsBst(t)
    ensures IsBst(InsertAll(t, xs))
    ensures forall k :: k in Keys(InsertAll(t, xs)) <==> k in Keys(t) || k in xs
    ensures StrictlyAscending(Inorder(InsertAll(t, xs)))
    decreases |xs|
  {
    if xs == [] {
      InorderAscending(t);
    } else {
      InsertAllSound(Insert(t, xs[0]), xs[1..]);
      forall k ensures k in xs <==> k == xs[0] || k in xs[1..] {
        assert xs == [xs[0]] + xs[1..];
      }
    }
  }

  /** The tree of the worked example: 5 at the root, 3 (with children 1 and 4) on its left, 8 on its right. */
  const WorkedTree: Tree := Node(Node(Node(Leaf, 1, Leaf), 3, Node(Leaf, 4, Leaf)), 5, Node(Leaf, 8, Leaf))

  /** Inserting 5, 3, 8, 1, 4 into an empty tree builds the worked example's tree. */
  lemma WorkedExampleTree()
    ensures InsertAll(Leaf, [5, 3, 8, 1, 4]) == WorkedTree
  {
    var one, eight := Node(Leaf, 1, Leaf), Node(Leaf, 8, Leaf);
    var t0 := Node(Leaf, 5, Leaf);
    var t1 := Node(Node(Leaf, 3, Leaf), 5, Leaf);
    var t2 := Node(Node(Leaf, 3, Leaf), 5, eight);
    var t3 := Node(Node(one, 3, Leaf), 5, eight);
    assert InsertAll(Leaf, [5, 3, 8, 1, 4]) == InsertAll(t0, [3, 8, 1, 4]) by {
      assert [5, 3, 8, 1, 4][1..] == [3, 8, 1, 4];
    }
    assert InsertAll(t0, [3, 8, 1, 4]) == InsertAll(t1, [8, 1, 4]) by {
      assert [3, 8, 1, 4][1..] == [8, 1, 4];
    }
    assert InsertAll(t1, [8, 1, 4]) == InsertAll(t2, [1, 4]) by {
      assert [8, 1, 4][1..] == [1, 4];
    }
    assert InsertAll(t2, [1, 4]) == InsertAll(t3, [4]) by {
      assert [1, 4][1..] == [4];
    }
  }

  /**
   * The worked example's queries: the tree lists 1 3 4 5 8 in order,
   * 5 3 1 4 8 in pre-order and 1 4 3 8 5 in post-order, and has maximum 8.
   */
  lemma WorkedExampleTraversals()
    ensures Inorder(WorkedTree) == [1, 3, 4, 5, 8]
    ensures Preorder(WorkedTree) == [5, 3, 1, 4, 8]
    ensures Postorder(WorkedTree) == [1, 4, 3, 8, 5]
    ensures RightmostNode(WorkedTree).data == 8
  {
  }

  /** Deleting 5 from the worked example's tree puts its successor 8 in its place, leaving 1 3 4 8 in order. */
  lemma WorkedExampleDelete()
    ensures Delete(WorkedTree, 5) == Node(Node(Node(Leaf, 1, Leaf), 3, Node(Leaf, 4, Leaf)), 8, Leaf)
    ensures Inorder(Delete(WorkedTree, 5)) == [1, 3, 4, 8]
  {
    var d := Node(Node(Node(Leaf, 1, Leaf), 3, Node(Leaf, 4, Leaf)), 8, Leaf);
    assert Delete(WorkedTree, 5) == d by {
      assert LeftmostNode(Node(Leaf, 8, Leaf)).data == 8;
    }
    assert Inorder(d) == [1, 3, 4, 8] by {
      assert Inorder(Node(Node(Leaf, 1, Leaf), 3, Node(Leaf, 4, Leaf))) == [1, 3, 4];
    }
  }
}
