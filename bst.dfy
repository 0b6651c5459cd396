/**
 * The tree object: it holds the root slot and every operation either
 * reads it or reassigns it.
 */
module Bst {
  import opened Wrappers
  import opened Trees
  import opened Insertion
  import opened Lookup
  import opened Traversal
  import opened Removal
  import opened Balance

  class BinarySearchTree {
    var root: Tree

    /** An empty tree, or one over a given root. */
    constructor (root: Tree := Nil)
      ensures this.root == root
    {
      this.root := root;
    }

    /** `insert`: descend iteratively and attach `v` at the first empty slot; returns the tree. */
    method Insert(v: int) returns (tree: BinarySearchTree)
      modifies this
      ensures tree == this
      ensures root == InsertRec(old(root), v)
      ensures Elems(root) == Elems(old(root)) + multiset{v}
      ensures IsBST(old(root)) ==> IsBST(root)
    {
      if root.Nil? {
        root := Node(Nil, v, Nil);
        return this;
      }
      ghost var start := root;
      var current := root;
      var path: seq<Frame> := [];
      while true
        invariant current.Node?
        invariant Plug(path, InsertRec(current, v)) == InsertRec(start, v)
        invariant root == start
        decreases current
      {
        if v < current.val {
          if current.left.Nil? {
            root := Plug(path, Node(Node(Nil, v, Nil), current.val, current.right));
            if IsBST(start) { InsertKeepsOrder(start, v); }
            return this;
          }
          PlugPush(WentLeft(current.val, current.right), path, InsertRec(current.left, v));
          path := [WentLeft(current.val, current.right)] + path;
          current := current.left;
        } else {
          if current.right.Nil? {
            root := Plug(path, Node(current.left, current.val, Node(Nil, v, Nil)));
            if IsBST(start) { InsertKeepsOrder(start, v); }
            return this;
          }
          PlugPush(WentRight(current.left, current.val), path, InsertRec(current.right, v));
          path := [WentRight(current.left, current.val)] + path;
          current := current.right;
        }
      }
    }

    /** `insertRecursively`: the same route and attachment, by recursion; returns the tree. */
    method InsertRecursively(v: int) returns (tree: BinarySearchTree)
      modifies this
      ensures tree == this
      ensures root == InsertRec(old(root), v)
      ensures Elems(root) == Elems(old(root)) + multiset{v}
      ensures IsBST(old(root)) ==> IsBST(root)
    {
      if IsBST(root) { InsertKeepsOrder(root, v); }
      root := InsertRec(root, v);
      return this;
    }

    /** `find`: the first node on the route of `v` that holds `v`, searched iteratively. */
    method Find(v: int) returns (found: Option<Tree>)
      ensures found == FindRec(root, v)
      ensures found.Some? ==> found.value in Subtrees(root) && found.value.val == v
      ensures IsBST(root) ==> (found.Some? <==> v in Elems(root))
    {
      if IsBST(root) { FindIffStored(root, v); }
      var current := root;
      while current.Node?
        invariant FindRec(current, v) == FindRec(root, v)
        decreases current
      {
        if v == current.val {
          return Some(current);
        }
        if v < current.val {
          current := current.left;
        } else {
          current := current.right;
        }
      }
      return None;
    }

    /** `findRecursively`: the same search by recursion. */
    method FindRecursively(v: int) returns (found: Option<Tree>)
      ensures found == FindRec(root, v)
      ensures found.Some? ==> found.value in Subtrees(root) && found.value.Node? && found.value.val == v
      ensures IsBST(root) ==> (found.Some? <==> v in Elems(root))
    {
      if IsBST(root) { FindIffStored(root, v); }
      found := FindRec(root, v);
    }

    /** `dfsPreOrder`: the values, each node before its subtrees. */
    method DfsPreOrder() returns (result: seq<int>)
      requires root.Node?
      ensures result == PreOrder(root)
      ensures multiset(result) == Elems(root) && |result| == Size(root)
      ensures result[0] == root.val
    {
      PreOrderElems(root);
      result := PreOrderFrom(root, []);
    }

    /** `dfsInOrder`: the values, each node between its subtrees; sorted on a search tree. */
    method DfsInOrder() returns (result: seq<int>)
      requires root.Node?
      ensures result == InOrder(root)
      ensures multiset(result) == Elems(root) && |result| == Size(root)
      ensures IsBST(root) ==> Sorted(result)
    {
      InOrderElems(root);
      if IsBST(root) { InOrderSorted(root); }
      result := InOrderFrom(root, []);
    }

    /** `dfsPostOrder`: the values, each node after its subtrees. */
    method DfsPostOrder() returns (result: seq<int>)
      requires root.Node?
      ensures result == PostOrder(root)
      ensures multiset(result) == Elems(root) && |result| == Size(root)
      ensures result[|result| - 1] == root.val
    {
      PostOrderElems(root);
      result := PostOrderFrom(root, []);
    }

    /** `bfs`: the values level by level, left to right, using a FIFO queue. */
    method Bfs() returns (result: seq<int>)
      requires root.Node?
      ensures result == LevelOrder([root])
      ensures multiset(result) == Elems(root)
      ensures result[0] == root.val
    {
      var queue := [root];
      result := [];
      while |queue| > 0
        invariant AllNodes(queue)
        invariant result + BfsQueue(queue) == BfsQueue([root])
        decreases ForestSize(queue)
      {
        var node := queue[0];
        ghost var before, emitted := queue, result;
        queue := queue[1..];
        result := result + [node.val];
        if node.left.Node? {
          queue := queue + [node.left];
        }
        if node.right.Node? {
          queue := queue + [node.right];
        }
        assert queue == before[1..] + Children(node) by { ChildrenInQueueOrder(node); }
        BfsAdvance(emitted, before);
      }
      LevelOrderOfTree(root);
    }

    /** `remove`: the root slot takes the subtree `removeNode` returns; nothing is returned. */
    method Remove(v: int)
      modifies this
      ensures root == Removed(old(root), v)
      ensures FindRec(old(root), v).None? ==> root == old(root)
      ensures IsBST(old(root)) ==> IsBST(root) && Elems(root) == Elems(old(root)) - multiset{v}
    {
      if FindRec(root, v).None? { RemoveAbsent(root, v); }
      if IsBST(root) {
        RemoveKeepsOrder(root, v);
        RemoveElems(root, v);
      }
      root := RemoveNode(root, v);
    }

    /** `isBalanced`: every node's subtrees differ in height by at most one. */
    method IsBalanced() returns (balanced: bool)
      ensures balanced <==> forall s :: s in Subtrees(root) ==> LocallyBalanced(s)
    {
      balanced := CheckBalanced(root);
    }

    /**
     * `findSecondHighest`: walk right from the root until the right child
     * is a leaf (then this node is the answer) or there is no right child
     * but a left one (then the answer is the largest value on the left).
     */
    method FindSecondHighest() returns (second: Option<int>)
      ensures second.None? <==> Size(root) < 2
      ensures second.Some? ==> |InOrder(root)| >= 2 && second.value == SecondLastValue(root)
      ensures second.Some? && IsBST(root) ==>
                (forall i :: 0 <= i < |InOrder(root)| - 1 ==> InOrder(root)[i] <= second.value) &&
                second.value <= InOrder(root)[|InOrder(root)| - 1]
    {
      var current := root;
      if current.Nil? || (current.left.Nil? && current.right.Nil?) {
        return None;
      }
      TwoInOrder(root);
      SecondLastBounds(root);
      while current.Node?
        invariant current.Node? && (current.left.Node? || current.right.Node?)
        invariant |InOrder(current)| >= 2 && SecondLastValue(current) == SecondLastValue(root)
        decreases current
      {
        if current.right.Node? && current.right.left.Nil? && current.right.right.Nil? {
          SecondLastBesideLeaf(current);
          return Some(current.val);
        }
        if current.right.Nil? && current.left.Node? {
          var m := FindMax(current.left);
          SecondLastNoRight(current);
          return Some(m);
        }
        SecondLastDownRight(current);
        current := current.right;
      }
      assert false;
      return None;
    }

    /** `findMax`: follow right children to the last value of `node` in order. */
    method FindMax(node: Tree) returns (max: int)
      requires node.Node?
      ensures max == LastValue(node)
      ensures max in Elems(node)
      ensures IsBST(node) ==> forall y :: y in Elems(node) ==> y <= max
    {
      var current := node;
      while current.right.Node?
        invariant current.Node? && LastValue(current) == LastValue(node)
        decreases current
      {
        LastValueDownRight(current);
        current := current.right;
      }
      LastValueNoRight(current);
      max := current.val;
      LastValueBounds(node);
    }
  }
}
