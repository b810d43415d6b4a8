/**
 * The minimum and maximum helpers: each walks a cursor down one spine of a
 * non-empty subtree (left children for the minimum, right children for the
 * maximum) until the next child position is empty.
 */
module Extremes {

  import opened Nodes

  /** The node at the end of the left spine of a non-empty subtree. */
  function LeftmostNode(t: Tree): (m: Tree)
    requires t.Node?
    ensures m.Node? && m.left == Leaf
    ensures m.data in Keys(t)
    ensures Keys(m) <= Keys(t)
  {
    if t.left == Leaf then t else LeftmostNode(t.left)
  }

  /** The node at the end of the right spine of a non-empty subtree. */
  function RightmostNode(t: Tree): (m: Tree)
    requires t.Node?
    ensures m.Node? && m.right == Leaf
    ensures m.data in Keys(t)
    ensures Keys(m) <= Keys(t)
  {
    if t.right == Leaf then t else RightmostNode(t.right)
  }

  /** In a search tree the left spine ends at the smallest key. */
  lemma {:induction false} LeftmostIsLeast(t: Tree)
    requires t.Node? && IsBst(t)
    ensures forall k :: k in Keys(t) ==> LeftmostNode(t).data <= k
  {
    if t.left != Leaf {
      LeftmostIsLeast(t.left);
    }
  }

  /** In a search tree the right spine ends at the largest key. */
  lemma {:induction false} RightmostIsGreatest(t: Tree)
    requires t.Node? && IsBst(t)
    ensures forall k :: k in Keys(t) ==> k <= RightmostNode(t).data
  {
    if t.right != Leaf {
      RightmostIsGreatest(t.right);
    }
  }

  /** findMin: follow left children from a non-empty subtree to the node holding its smallest key. */
  method FindMin(node: Tree) returns (m: Tree)
    requires node.Node?
    ensures m == LeftmostNode(node)
    ensures m.Node? && m.left == Leaf && m.data in Keys(node)
    ensures IsBst(node) ==> forall k :: k in Keys(node) ==> m.data <= k
  {
    m := node;
    while m.left != Leaf
      invariant m.Node?
      invariant LeftmostNode(m) == LeftmostNode(node)
      decreases m
    {
      m := m.left;
    }
    if IsBst(node) {
      LeftmostIsLeast(node);
    }
  }

  /** findMax: follow right children from a non-empty subtree to the node holding its largest key. */
  method FindMax(node: Tree) returns (m: Tree)
    requires node.Node?
    ensures m == RightmostNode(node)
    ensures m.Node? && m.right == Leaf && m.data in Keys(node)
    ensures IsBst(node) ==> forall k :: k in Keys(node) ==> k <= m.data
  {
    m := node;
    while m.right != Leaf
      invariant m.Node?
      invariant RightmostNode(m) == RightmostNode(node)
      decreases m
    {
      m := m.right;
    }
    if IsBst(node) {
      RightmostIsGreatest(node);
    }
  }
}
