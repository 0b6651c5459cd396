# Binary search tree, modelled and verified in Dafny

This project models a teaching-grade binary search tree and proves its
properties. The tree object holds a root slot. Each node holds a value and
a left and a right child slot. Its operations are:

- iterative and recursive insertion, with equal values routed right;
- iterative and recursive lookup;
- pre-, in- and post-order depth-first traversal;
- breadth-first traversal with a FIFO queue;
- removal by recursive rebuild, using the in-order successor for a node
  with two children;
- the AVL-style balance check;
- the second-highest query, walking right from the root.

How the model is built:

- A subtree is the value `Trees.Tree = Nil | Node(left, val, right)`. The
  tree object is the class `Bst.BinarySearchTree`, whose one field `root`
  the mutating operations reassign.
- The recursive operations of the source are functions:
  `Insertion.InsertRec`, `Lookup.FindRec`, `Balance.Height` and
  `Balance.CheckBalanced`.
- The loops of the source are methods with loop invariants, each proved
  against one of those functions or against a ghost specification. They are
  `insert`, `find`, `bfs`, `getMin`, `findSecondHighest` and `findMax`.
- The iterative `insert` walks down with a zipper path (`Insertion.Frame`,
  `Insertion.Plug`). Its invariant is that plugging the rest of the insertion
  back under the path gives the recursive result. So `insert` and
  `insertRecursively` build the same tree.
- `bfs` is tied to `Traversal.BfsQueue`, the queue discipline written as a
  function. That function is proved equal to `Traversal.LevelOrder`, an
  independent definition: the values of one generation, then the level order
  of the next generation.
- Removal is specified by the ghost function `Removal.Removed`, which mirrors
  `removeNode` branch for branch. `Removal.RemoveNode` and
  `Bst.BinarySearchTree.Remove` are proved to compute it.
- The search-tree order is `Trees.IsBST`. At every node, left values are
  strictly smaller and right values are at least as large. Stored values are
  compared as mathematical integers.

The properties proved are:

- Insertion and removal keep the order.
- Insertion adds exactly one occurrence of the value. On an ordered tree,
  removal takes away exactly one occurrence, if there is one.
- On an ordered tree, lookup succeeds exactly when the value is stored.
- The in-order traversal of an ordered tree is sorted.
- Every traversal lists each stored value exactly once.
- On a search tree, inserting a value and then removing it gives back the
  same in-order sequence.
- The second-highest query returns the second-to-last in-order value.
- The balance check holds exactly when every subtree is locally balanced.

Module `Examples` checks four fixed example trees, each built by inserting
a short list of values into an empty tree.

## Model

| member | source | states |
|---|---|---|
| Bst.BinarySearchTree.constructor | binary-search-tree.js:11-13 | the new tree's root slot is the given root, empty by default |
| Insertion.InsertRec | binary-search-tree.js:44-64 | the result is a node, holds the old values plus one copy of `v`, and has one node more |
| Insertion.InsertKeepsOrder | binary-search-tree.js:44-64 | inserting into a search tree leaves a search tree, with smaller values left and equal or larger values right |
| Bst.BinarySearchTree.Insert | binary-search-tree.js:17-40 | the iterative descent builds exactly the recursive insertion's tree; returns the tree itself; adds one copy of `v`; keeps the order |
| Bst.BinarySearchTree.InsertRecursively | binary-search-tree.js:44-64 | the root becomes the recursive insertion's tree; returns the tree itself; adds one copy of `v`; keeps the order |
| Insertion.InsertAll | binary-search-tree.js:17-40 | inserting a sequence one value at a time adds exactly those values |
| Insertion.InsertAllKeepsOrder | binary-search-tree.js:17-40 | any insertions into a search tree leave a search tree whose in-order sequence is sorted |
| Lookup.FindRec | binary-search-tree.js:83-91 | a found node is a subtree of the tree, is non-empty and holds `v` |
| Lookup.FindIffStored | binary-search-tree.js:68-91 | on a search tree, the search finds a node exactly when `v` is stored |
| Lookup.FindAfterInserts | binary-search-tree.js:17-91 | after inserting `xs` into an empty tree, `v` is found exactly when it is in `xs` |
| Bst.BinarySearchTree.Find | binary-search-tree.js:68-79 | the iterative search returns what the recursive search returns: a subtree of the root holding `v`, or nothing; on a search tree, found exactly when stored |
| Bst.BinarySearchTree.FindRecursively | binary-search-tree.js:83-91 | the recursive search returns the first node holding `v` on its route, as a subtree of the root, or nothing; on a search tree, found exactly when `v` is stored |
| Traversal.PreOrderFrom | binary-search-tree.js:97-101 | the helper appends the pre-order sequence of `node` to the output so far |
| Traversal.InOrderFrom | binary-search-tree.js:110-114 | the helper appends the in-order sequence of `node` to the output so far |
| Traversal.PostOrderFrom | binary-search-tree.js:123-127 | the helper appends the post-order sequence of `node` to the output so far |
| Bst.BinarySearchTree.DfsPreOrder | binary-search-tree.js:95-104 | the pre-order sequence: every stored value once, as many values as nodes, the root's value first |
| Bst.BinarySearchTree.DfsInOrder | binary-search-tree.js:108-117 | the in-order sequence: every stored value once, as many values as nodes, sorted on a search tree |
| Bst.BinarySearchTree.DfsPostOrder | binary-search-tree.js:121-130 | the post-order sequence: every stored value once, as many values as nodes, the root's value last |
| Trees.PreOrderElems | binary-search-tree.js:95-104 | the pre-order sequence holds exactly the stored values and has one entry per node |
| Trees.InOrderElems | binary-search-tree.js:108-117 | the in-order sequence holds exactly the stored values and has one entry per node |
| Trees.PostOrderElems | binary-search-tree.js:121-130 | the post-order sequence holds exactly the stored values and has one entry per node |
| Trees.InOrderSorted | binary-search-tree.js:108-117 | the in-order sequence of a search tree is non-decreasing, duplicates included |
| Trees.ElemsCount | binary-search-tree.js:2-8 | a tree stores one value per node, and stores nothing exactly when it is empty |
| Bst.BinarySearchTree.Bfs | binary-search-tree.js:134-146 | the queue loop outputs the level order of the root: every stored value once, the root's value first |
| Traversal.BfsAdvance | binary-search-tree.js:139-144 | one loop turn moves the front node's value to the output and queues its non-empty children, left then right; the remaining work shrinks |
| Traversal.ChildrenInQueueOrder | binary-search-tree.js:142-143 | the children a dequeued node adds are its left child, if any, then its right child, if any |
| Traversal.BfsQueueDrains | binary-search-tree.js:139-144 | draining a block of nodes ahead of a queue outputs their values and queues their children behind it |
| Traversal.BfsIsLevelOrder | binary-search-tree.js:139-144 | the FIFO queue discipline outputs exactly the generation-by-generation level order |
| Traversal.LevelOrderElems | binary-search-tree.js:134-146 | the level order lists every stored value of the generation exactly once |
| Traversal.LevelOrderOfTree | binary-search-tree.js:134-146 | for a whole tree, the queue output equals the level order, which lists every stored value once and starts with the root's value |
| Removal.Leftmost | binary-search-tree.js:173-178 | the leftmost node is a subtree with no left child, and its value comes first in order |
| Removal.GetMin | binary-search-tree.js:173-178 | following left children reaches exactly the leftmost node |
| Removal.LeftmostIsLeast | binary-search-tree.js:173-178 | in a search tree the leftmost value is stored and is the least stored value |
| Removal.SuccessorRouteEndsAtLeftmost | binary-search-tree.js:160-162 | in a search tree, searching for the successor value reaches the leftmost node, which has no left child |
| Removal.RemoveNode | binary-search-tree.js:151-171 | the rebuild returns exactly the removal specification's subtree, in every branch |
| Removal.RemoveAbsent | binary-search-tree.js:151-152 | when the search for `v` finds nothing, removal returns the tree unchanged |
| Removal.RemoveElems | binary-search-tree.js:151-171 | on a search tree, removal takes away exactly one occurrence of `v`, or nothing when `v` is absent |
| Removal.RemoveKeepsOrder | binary-search-tree.js:151-171 | removal from a search tree leaves a search tree |
| Removal.InsertThenRemove | binary-search-tree.js:17-181 | inserting `v` into a search tree and then removing `v` gives back the same in-order sequence |
| Bst.BinarySearchTree.Remove | binary-search-tree.js:150-181 | the root slot takes the rebuilt subtree; unchanged when `v` is not found; on a search tree, the order is kept and one occurrence of `v` is gone |
| Balance.Height | binary-search-tree.js:185-188 | the height is -1 exactly for the empty slot and is less than the node count |
| Balance.CheckBalanced | binary-search-tree.js:190-196 | true exactly when, at every node, the subtree heights differ by at most one |
| Bst.BinarySearchTree.IsBalanced | binary-search-tree.js:184-199 | true exactly when every subtree of the root is locally balanced |
| Bst.BinarySearchTree.FindSecondHighest | binary-search-tree.js:203-216 | nothing exactly when there are fewer than two nodes; otherwise the second-to-last in-order value, which on a search tree bounds all but the last and is bounded by the last |
| Bst.BinarySearchTree.FindMax | binary-search-tree.js:218-223 | following right children yields the last in-order value, which is stored and is the maximum of a search tree |
| Trees.LastValueBounds | binary-search-tree.js:218-223 | the last in-order value is stored, and on a search tree no stored value exceeds it |
| Trees.SecondLastBounds | binary-search-tree.js:203-216 | two in-order values mean two nodes; on a search tree every value but the last is at most the second-to-last, which is at most the last |
| Trees.SecondLastBesideLeaf | binary-search-tree.js:208-210 | a node whose right child is a leaf holds the second-to-last value of its subtree |
| Trees.SecondLastNoRight | binary-search-tree.js:211-213 | without a right child, the second-to-last value is the last in-order value of the left subtree, which `findMax` returns |
| Trees.SecondLastDownRight | binary-search-tree.js:214 | when the right child has a child, the second-to-last value lies in the right subtree |
| Trees.SortedUnique | binary-search-tree.js:108-117 | two sorted sequences with the same values are equal |
| Examples.ChainIsUnbalanced | binary-search-tree.js:184-199 | inserting 1, 2, 3, 4, 5 gives a right chain that is not balanced |
| Examples.PerfectTreeIsBalanced | binary-search-tree.js:184-199 | inserting 4, 2, 6, 1, 3, 5, 7 gives a balanced tree |
| Examples.LevelOrderExample | binary-search-tree.js:134-146 | the tree built from 5, 3, 8, 1, 4, 7, 9 has level order 5, 3, 8, 1, 4, 7, 9 |
| Examples.SecondHighestExample | binary-search-tree.js:203-216 | inserting 10, 5, 15, 3, 7, 12, 20 gives a tree whose second-to-last in-order value is 15 |

## Left out

- Node identity and aliasing: `find` and `findRecursively` return the found
  subtree as a value, and the constructor takes the root as a value. In the
  source these are live nodes that the caller holds. The model rebuilds the
  path to the root instead of writing in place. So it does not capture
  writes becoming visible through a node the caller holds:
  - `insert` reassigning a node's `left` or `right` slot;
  - a two-child removal overwriting a node's `val` with the successor value;
  - a removal reassigning a node's `right` or `left` slot.
- Values are mathematical integers. JavaScript's loose comparisons of mixed
  types, `NaN`, `undefined` and objects are not modelled.
- The constructor accepts any root, as the source does. Nothing requires it
  to be ordered, so the order facts are stated as "if the tree is a search
  tree".
- `remove` returns nothing, as the code does; its doc comment promises the
  removed node.
- Bst.BinarySearchTree.DfsPreOrder, DfsInOrder, DfsPostOrder and Bfs require a
  non-empty root. On an empty tree the source fails on its first read of the
  root: `node.val` in `dfsPreOrder` and `bfs`, and `node.left` in
  `dfsInOrder` and `dfsPostOrder`. The model keeps that demand rather than returning an
  empty sequence.
- Bst.BinarySearchTree.FindRecursively: the optional `current` parameter is
  not a separate entry point. The recursion is `Lookup.FindRec` on the root.
- Bst.BinarySearchTree.InsertRecursively: the recursive calls that write into
  a non-root `current` are modelled through `Insertion.InsertRec` on the
  whole root.
- Call-stack depth, and the cost of `Array.prototype.shift` in `bfs`, are
  not modelled.
- `module.exports` is not modelled.
- The second-highest query is stated for every tree, not only search trees.
  It returns the second-to-last in-order value. On a search tree that is
  the second-highest value, counting duplicates separately.
