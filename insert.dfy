/**
 * Recursive insertion: descend by comparison and create a node at the empty
 * position reached; a key already present leaves the subtree as it was.
 */
module Insertion {

  import opened Nodes

  /** The subtree after inserting v, rebuilt along the search path. */
  function Insert(t: Tree, v: int): (r: Tree)
    ensures Keys(r) == Keys(t) + {v}
    ensures IsBst(t) ==> IsBst(r)
  {
    match t
    case Leaf => Node(Leaf, v, Leaf)
    case Node(l, x, rt) =>
      if v < x then Node(Insert(l, v), x, rt)
      else if v > x then Node(l, x, Insert(rt, v))
      else t
  }

  /** Inserting a key a search tree already holds changes nothing. */
  lemma {:induction false} InsertPresent(t: Tree, v: int)
    requires IsBst(t) && v in Keys(t)
    ensures Insert(t, v) == t
  {
    match t
    case Node(l, x, rt) =>
      if v < x {
        InsertPresent(l, v);
      } else if v > x {
        InsertPresent(rt, v);
      }
  }

  /** Insertion is idempotent on search trees. */
  lemma {:induction false} InsertIdempotent(t: Tree, v: int)
    requires IsBst(t)
    ensures Insert(Insert(t, v), v) == Insert(t, v)
  {
    InsertPresent(Insert(t, v), v);
  }

  /** Insertion adds exactly one node when the key is new and none otherwise. */
  lemma {:induction false} InsertSize(t: Tree, v: int)
    requires IsBst(t)
    ensures Size(Insert(t, v)) == if v in Keys(t) then Size(t) else Size(t) + 1
  {
    SizeIsKeyCount(t);
    SizeIsKeyCount(Insert(t, v));
  }
}
