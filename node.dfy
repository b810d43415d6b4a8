/**
 * The node structure of the search tree and the ordering invariant every
 * tree built by the engine keeps.
 */
module Nodes {

  /** A subtree: an empty child position, or a node holding a key and two owned children. */
  datatype Tree = Leaf | Node(left: Tree, data: int, right: Tree)

  /** The set of keys stored in a subtree. */
  function Keys(t: Tree): set<int>
  {
    match t
    case Leaf => {}
    case Node(l, x, r) => Keys(l) + {x} + Keys(r)
  }

  /** The number of nodes of a subtree. */
  function Size(t: Tree): nat
  {
    match t
    case Leaf => 0
    case Node(l, _, r) => Size(l) + 1 + Size(r)
  }

  /**
   * The search-tree invariant: at every node, every key on the left is
   * strictly smaller and every key on the right strictly greater, so no key
   * occurs twice.
   */
  ghost predicate IsBst(t: Tree)
  {
    match t
    case Leaf => true
    case Node(l, x, r) =>
      && IsBst(l) && IsBst(r)
      && (forall k :: k in Keys(l) ==> k < x)
      && (forall k :: k in Keys(r) ==> x < k)
  }

  /** In a search tree every node holds a distinct key, so the node count is the key count. */
  lemma {:induction false} SizeIsKeyCount(t: Tree)
    requires IsBst(t)
    ensures Size(t) == |Keys(t)|
  {
    match t
    case Leaf =>
    case Node(l, x, r) =>
      SizeIsKeyCount(l);
      SizeIsKeyCount(r);
      assert x !in Keys(l) && x !in Keys(r);
      assert Keys(l) * Keys(r) == {} by {
        forall k | k in Keys(l) ensures k !in Keys(r) { }
      }
      assert |Keys(l) + {x}| == |Keys(l)| + 1;
  }
}
