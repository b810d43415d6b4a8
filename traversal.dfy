/**
 * The three depth-first traversals, each producing the keys in the order
 * it visits them: left-node-right, node-left-right and left-right-node.
 */
module Traversals {

  import opened Nodes
  import opened Sequences

  function Inorder(t: Tree): (s: seq<int>)
    ensures |s| == Size(t)
    ensures forall k :: k in s <==> k in Keys(t)
  {
    match t
    case Leaf => []
    case Node(l, x, r) => Inorder(l) + [x] + Inorder(r)
  }

  function Preorder(t: Tree): (s: seq<int>)
    ensures |s| == Size(t)
    ensures forall k :: k in s <==> k in Keys(t)
    ensures t.Node? ==> s[0] == t.data
  {
    match t
    case Leaf => []
    case Node(l, x, r) => [x] + Preorder(l) + Preorder(r)
  }

  function Postorder(t: Tree): (s: seq<int>)
    ensures |s| == Size(t)
    ensures forall k :: k in s <==> k in Keys(t)
    ensures t.Node? ==> s[|s| - 1] == t.data
  {
    match t
    case Leaf => []
    case Node(l, x, r) => Postorder(l) + Postorder(r) + [x]
  }

  /** The in-order traversal of a search tree lists its keys in strictly ascending order. */
  lemma {:induction false} InorderAscending(t: Tree)
    requires IsBst(t)
    ensures StrictlyAscending(Inorder(t))
  {
    match t
    case Leaf =>
    case Node(l, x, r) =>
      InorderAscending(l);
      InorderAscending(r);
      var a, b := Inorder(l), Inorder(r);
      var s := a + [x] + b;
      forall i, j | 0 <= i < j < |s| ensures s[i] < s[j] {
        if j < |a| {
        } else if i < |a| {
          assert s[i] == a[i] && a[i] in a;
          if j > |a| { assert s[j] == b[j - |a| - 1] && b[j - |a| - 1] in b; }
        } else if i == |a| {
          assert s[j] == b[j - |a| - 1] && b[j - |a| - 1] in b;
        } else {
          assert s[i] == b[i - |a| - 1] && s[j] == b[j - |a| - 1];
        }
      }
  }

  /** The three traversals visit the same keys the same number of times. */
  lemma {:induction false} TraversalsArePermutations(t: Tree)
    ensures multiset(Preorder(t)) == multiset(Inorder(t))
    ensures multiset(Postorder(t)) == multiset(Inorder(t))
  {
    match t
    case Leaf =>
    case Node(l, x, r) =>
      TraversalsArePermutations(l);
      TraversalsArePermutations(r);
      assert multiset(Preorder(t)) == multiset([x]) + multiset(Preorder(l)) + multiset(Preorder(r));
      assert multiset(Inorder(t)) == multiset(Inorder(l)) + multiset([x]) + multiset(Inorder(r));
      assert multiset(Postorder(t)) == multiset(Postorder(l)) + multiset(Postorder(r)) + multiset([x]);
  }
}
