/**
 * Recursive deletion: descend by comparison to the node holding the key;
 * a node with at most one child is replaced by that child, and a node with
 * two children takes the key of its in-order successor (the smallest key of
 * its right subtree), which is then deleted from the right subtree.
 */
module Deletion {

  import opened Nodes
  import opened Extremes

  /** The subtree after deleting v. */
  function Delete(t: Tree, v: int): (r: Tree)
    ensures Keys(r) <= Keys(t)
    ensures v !in Keys(t) ==> r == t
    ensures IsBst(t) ==> IsBst(r) && Keys(r) == Keys(t) - {v}
  {
    match t
    case Leaf => Leaf
    case Node(l, x, rt) =>
      if v < x then Node(Delete(l, v), x, rt)
      else if v > x then Node(l, x, Delete(rt, v))
      else if l == Leaf then rt
      else if rt == Leaf then l
      else
        var s := LeftmostNode(rt).data;
        DeleteSuccessorSound(l, x, rt);
        Node(l, s, Delete(rt, s))
  }

  /**
   * Facts the two-child case of Delete rests on: the in-order successor lies
   * above every key of the left subtree and below every other key of the
   * right one.
   */
  lemma DeleteSuccessorSound(l: Tree, x: int, rt: Tree)
    requires rt.Node?
    ensures IsBst(Node(l, x, rt)) ==>
      var s := LeftmostNode(rt).data;
      && (forall k :: k in Keys(l) ==> k < s)
      && (forall k :: k in Keys(rt) - {s} ==> s < k)
  {
    if IsBst(Node(l, x, rt)) {
      LeftmostIsLeast(rt);
    }
  }

  /**
   * Two-child case: the node keeps its left subtree, its key becomes the
   * in-order successor of v (the least key above v), and its right subtree
   * loses exactly that successor; the ordering invariant still holds.
   */
  lemma {:induction false} DeleteTwoChildren(l: Tree, v: int, rt: Tree)
    requires IsBst(Node(l, v, rt)) && l.Node? && rt.Node?
    ensures var r := Delete(Node(l, v, rt), v);
      && r.Node? && r.left == l
      && v < r.data && r.data in Keys(rt)
      && (forall k :: k in Keys(Node(l, v, rt)) && v < k ==> r.data <= k)
      && Keys(r.right) == Keys(rt) - {r.data}
      && IsBst(r)
  {
    LeftmostIsLeast(rt);
  }

  /** Deletion removes exactly one node when the key is present and none otherwise. */
  lemma {:induction false} DeleteSize(t: Tree, v: int)
    requires IsBst(t)
    ensures Size(Delete(t, v)) == if v in Keys(t) then Size(t) - 1 else Size(t)
  {
    SizeIsKeyCount(t);
    SizeIsKeyCount(Delete(t, v));
  }
}
