# Binary search tree engine

A model of the integer binary search tree engine of `Binary.cpp`: the `Node`
structure, and the `BinarySearchTree` class with its recursive insertion
(duplicates silently ignored), its recursive deletion (leaf, one-child and
two-child cases, the last by copying the in-order successor), the `findMin`
and `findMax` helpers, the public `findMaximum` that fails on an empty tree,
and the in-order, pre-order and post-order traversals.

Layout:

- `node.dfy` (module `Nodes`): the `Tree` datatype (`Leaf` for an empty child
  position, `Node(left, data, right)`), the key set `Keys`, the node count
  `Size` and the ordering invariant `IsBst` (left keys strictly smaller, right
  keys strictly greater, hence no duplicates).
- `extremes.dfy` (module `Extremes`): `FindMin`/`FindMax`, the cursor loops of
  `findMin`/`findMax`, proved against the spine functions `LeftmostNode`/`RightmostNode`.
- `insert.dfy`, `delete.dfy` (modules `Insertion`, `Deletion`): the recursive
  `insert` and `deleteNode` as functions that rebuild the search path, as the
  source does when it reassigns `node->left`/`node->right` from the recursive
  call.
- `traversal.dfy` (module `Traversals`): the three traversals as functions
  returning the visited keys.
- `properties.dfy` (module `TreeProperties`): how insertion and deletion change
  the in-order listing, what a run of insertions builds, and the worked example
  (insert 5, 3, 8, 1, 4; delete 5).
- `engine.dfy` (module `Engine`): the class `BinarySearchTree` holding `root`,
  with the public constructor, `Insert`, `Remove`, `FindMaximum` and the three
  `*Traverse` methods; `Valid()` is the search-tree invariant on `root`.
- `sequences.dfy`, `wrappers.dfy`: strictly ascending sequences (two with the
  same values are equal) and the `Result` type for `findMaximum`'s error.

## Model

| member | source | states |
|---|---|---|
| Insertion.Insert | Binary.cpp:31-48 | the key set after inserting v is the old key set plus v, and a search tree stays a search tree |
| Insertion.InsertPresent | Binary.cpp:38-47 | inserting a key the search tree already holds returns the tree unchanged |
| Insertion.InsertIdempotent | Binary.cpp:31-48 | inserting the same value twice gives the same tree as inserting it once |
| Insertion.InsertSize | Binary.cpp:33-36 | insertion creates exactly one node when the key is new and none when it is a duplicate |
| Deletion.Delete | Binary.cpp:51-84 | deletion never adds keys; deleting an absent key returns the tree unchanged; on a search tree the result is a search tree whose keys are the old keys minus v |
| Deletion.DeleteSuccessorSound | Binary.cpp:75-80 | the in-order successor copied into a two-child node is above every key of the left subtree and below every other key of the right subtree |
| Deletion.DeleteTwoChildren | Binary.cpp:75-80 | deleting the key of a two-child node keeps its left subtree, replaces its key by the least key above it (taken from the right subtree), removes exactly that key from the right subtree, and keeps the ordering invariant |
| Deletion.DeleteSize | Binary.cpp:64-74 | deletion frees exactly one node when the key is present and none otherwise |
| Nodes.SizeIsKeyCount | Binary.cpp:46-47 | in a search tree no key occurs twice, so the node count equals the number of distinct keys |
| Extremes.LeftmostNode | Binary.cpp:87-92 | the end of the left spine of a non-empty subtree is a node of that subtree with no left child |
| Extremes.RightmostNode | Binary.cpp:95-100 | the end of the right spine of a non-empty subtree is a node of that subtree with no right child |
| Extremes.LeftmostIsLeast | Binary.cpp:86-92 | in a search tree the left spine ends at the smallest key |
| Extremes.RightmostIsGreatest | Binary.cpp:94-100 | in a search tree the right spine ends at the largest key |
| Extremes.FindMin | Binary.cpp:87-92 | the cursor loop stops at the end of the left spine; on a search tree that node holds the minimum key |
| Extremes.FindMax | Binary.cpp:95-100 | the cursor loop stops at the end of the right spine; on a search tree that node holds the maximum key |
| Traversals.Inorder | Binary.cpp:103-113 | the in-order listing has one entry per node and holds exactly the tree's keys |
| Traversals.Preorder | Binary.cpp:116-123 | the pre-order listing has one entry per node, holds exactly the tree's keys and starts with the root |
| Traversals.Postorder | Binary.cpp:126-133 | the post-order listing has one entry per node, holds exactly the tree's keys and ends with the root |
| Traversals.InorderAscending | Binary.cpp:102-113 | the in-order listing of a search tree is strictly ascending |
| Traversals.TraversalsArePermutations | Binary.cpp:103-133 | pre-order and post-order listings are permutations of the in-order listing |
| TreeProperties.InorderAfterInsert | Binary.cpp:31-48 | after an insertion the in-order listing is the old one with v placed at its ordered position, or unchanged when v was already present |
| TreeProperties.InorderAfterDelete | Binary.cpp:51-84 | after a deletion the in-order listing is the old one with v taken out and the rest in the same order |
| TreeProperties.InsertAllSound | Binary.cpp:140-142 | any sequence of insertions into a search tree yields a search tree holding exactly the old and the inserted keys, listed strictly ascending in order |
| TreeProperties.WorkedExampleTree | Binary.cpp:140-142 | inserting 5, 3, 8, 1, 4 into an empty tree builds 5 over (3 over 1 and 4) and 8 |
| TreeProperties.WorkedExampleTraversals | Binary.cpp:164-179 | that tree lists 1 3 4 5 8 in order, 5 3 1 4 8 in pre-order, 1 4 3 8 5 in post-order, and its maximum is 8 |
| TreeProperties.WorkedExampleDelete | Binary.cpp:145-147 | deleting 5 from that tree puts its successor 8 at the root, listing 1 3 4 8 in order |
| Engine.BinarySearchTree.constructor | Binary.cpp:138 | a new tree is empty and satisfies the ordering invariant |
| Engine.BinarySearchTree.Insert | Binary.cpp:140-142 | the root becomes the insertion result, the key set gains exactly the value, a duplicate leaves the tree as it was, the invariant is kept |
| Engine.BinarySearchTree.Remove | Binary.cpp:145-147 | the root becomes the deletion result, the key set loses exactly the value, an absent value leaves the tree as it was, the invariant is kept |
| Engine.BinarySearchTree.FindMaximum | Binary.cpp:150-161 | fails with "Tree is empty." exactly when the tree is empty; otherwise returns a key of the tree that no key exceeds |
| Engine.BinarySearchTree.InorderTraverse | Binary.cpp:164-167 | returns every key once, in strictly ascending order |
| Engine.BinarySearchTree.PreorderTraverse | Binary.cpp:170-173 | returns the root first and a permutation of the in-order listing |
| Engine.BinarySearchTree.PostorderTraverse | Binary.cpp:176-179 | returns the root last and a permutation of the in-order listing |

## Left out

- `main` (Binary.cpp:182-274): reading `data.txt`, the menu loop and console input are I/O glue; the driver's own membership set `valuesInFile`, which it checks before calling `remove`, is the driver's bookkeeping and not engine state.
- Printing: each traversal returns the sequence it would print, and the trailing newline of the public wrappers is not modelled.
- Heap nodes: `new Node`, `delete node` and the identity of node objects are not modelled. The tree is a value, and `insert`/`deleteNode` rebuild the search path instead of updating nodes in place, so aliasing between nodes and the reuse of a node object in the two-child case are not captured; `FindMin`/`FindMax` return the subtree at the end of the spine rather than the address of its node.
- The exception thrown by `findMaximum` on an empty tree is a `Result` value carrying the message.
- `int` width: keys are only compared, never combined arithmetically, so unbounded integers give the same behaviour as the source's 32-bit `int`.
- Stack depth: the source recurses once per level, which on a degenerate tree could exhaust the call stack; the model has no such limit.
- Deletion.Delete: the exact key set of the result is stated only for trees that keep the ordering invariant; on a tree that breaks it the search may miss the key, which the model reproduces but characterises only as "no keys are added".
