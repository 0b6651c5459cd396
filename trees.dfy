/**
 * The node structure of the binary search tree and its abstract views:
 * the multiset of stored values, the node count, the set of nodes, the
 * three depth-first orders and the search-tree order itself.
 *
 * A `Node` of the source owns at most two children and is reachable from
 * exactly one parent slot, so a subtree is a value: `Nil` is an empty
 * child slot (`null`), `Node(left, val, right)` a node and its children.
 */
module Trees {

  datatype Tree = Nil | Node(left: Tree, val: int, right: Tree)

  /** The values stored in `t`, duplicates counted. */
  ghost function Elems(t: Tree): multiset<int>
  {
    match t
    case Nil => multiset{}
    case Node(l, x, r) => Elems(l) + multiset{x} + Elems(r)
  }

  /** The number of nodes of `t`. */
  ghost function Size(t: Tree): nat
  {
    match t
    case Nil => 0
    case Node(l, _, r) => Size(l) + 1 + Size(r)
  }

  /** Every node of `t`, each as the subtree it roots. */
  ghost function Subtrees(t: Tree): set<Tree>
  {
    match t
    case Nil => {}
    case Node(l, _, r) => {t} + Subtrees(l) + Subtrees(r)
  }

  /** Node, then left subtree, then right subtree. */
  ghost function PreOrder(t: Tree): seq<int>
  {
    match t
    case Nil => []
    case Node(l, x, r) => [x] + PreOrder(l) + PreOrder(r)
  }

  /** Left subtree, then node, then right subtree. */
  ghost function InOrder(t: Tree): seq<int>
  {
    match t
    case Nil => []
    case Node(l, x, r) => InOrder(l) + [x] + InOrder(r)
  }

  /** Left subtree, then right subtree, then node. */
  ghost function PostOrder(t: Tree): seq<int>
  {
    match t
    case Nil => []
    case Node(l, x, r) => PostOrder(l) + PostOrder(r) + [x]
  }

  /**
   * The search-tree order with duplicates placed to the right: at every
   * node, the left subtree holds only smaller values and the right subtree
   * only values at least as large.
   */
  ghost predicate IsBST(t: Tree)
  {
    match t
    case Nil => true
    case Node(l, x, r) =>
      && IsBST(l) && IsBST(r)
      && (forall y :: y in Elems(l) ==> y < x)
      && (forall y :: y in Elems(r) ==> x <= y)
  }

  ghost predicate Sorted(s: seq<int>)
  {
    forall i, j :: 0 <= i < j < |s| ==> s[i] <= s[j]
  }

  lemma {:induction false} ElemsCount(t: Tree)
    ensures |Elems(t)| == Size(t)
    ensures Elems(t) == multiset{} <==> t.Nil?
  {
    match t
    case Nil =>
    case Node(l, x, r) =>
      ElemsCount(l);
      ElemsCount(r);
      assert x in Elems(t);
  }

  lemma {:induction false} PreOrderElems(t: Tree)
    ensures multiset(PreOrder(t)) == Elems(t)
    ensures |PreOrder(t)| == Size(t)
  {
    match t
    case Nil =>
    case Node(l, x, r) =>
      PreOrderElems(l);
      PreOrderElems(r);
  }

  lemma {:induction false} InOrderElems(t: Tree)
    ensures multiset(InOrder(t)) == Elems(t)
    ensures |InOrder(t)| == Size(t)
  {
    match t
    case Nil =>
    case Node(l, x, r) =>
      InOrderElems(l);
      InOrderElems(r);
  }

  lemma {:induction false} PostOrderElems(t: Tree)
    ensures multiset(PostOrder(t)) == Elems(t)
    ensures |PostOrder(t)| == Size(t)
  {
    match t
    case Nil =>
    case Node(l, x, r) =>
      PostOrderElems(l);
      PostOrderElems(r);
  }

  /** On a search tree the in-order sequence never decreases. */
  lemma {:induction false} InOrderSorted(t: Tree)
    requires IsBST(t)
    ensures Sorted(InOrder(t))
  {
    match t
    case Nil =>
    case Node(l, x, r) =>
      InOrderSorted(l);
      InOrderSorted(r);
      InOrderElems(l);
      InOrderElems(r);
      var a, b := InOrder(l), InOrder(r);
      forall i | 0 <= i < |a| ensures a[i] < x {
        assert a[i] in multiset(a);
      }
      forall i | 0 <= i < |b| ensures x <= b[i] {
        assert b[i] in multiset(b);
      }
      SortedAround(a, x, b);
  }

  lemma SortedAround(a: seq<int>, x: int, b: seq<int>)
    requires Sorted(a) && Sorted(b)
    requires forall i :: 0 <= i < |a| ==> a[i] <= x
    requires forall i :: 0 <= i < |b| ==> x <= b[i]
    ensures Sorted(a + [x] + b)
  {
    var s := a + [x] + b;
    forall i, j | 0 <= i < j < |s| ensures s[i] <= s[j] {
      if j < |a| {
      } else if i < |a| {
        assert s[i] <= x;
      } else if i == |a| {
      } else {
        assert s[i] == b[i - |a| - 1] && s[j] == b[j - |a| - 1];
      }
    }
  }

  /** The last in-order value of a non-empty tree. */
  ghost function LastValue(t: Tree): int
    requires t.Node?
  {
    var s := InOrder(t);
    s[|s| - 1]
  }

  /** The second-to-last in-order value. */
  ghost function SecondLastValue(t: Tree): int
    requires |InOrder(t)| >= 2
  {
    var s := InOrder(t);
    s[|s| - 2]
  }

  /** The last in-order value is stored and, on a search tree, no stored value exceeds it. */
  lemma LastValueBounds(t: Tree)
    requires t.Node?
    ensures LastValue(t) in Elems(t)
    ensures IsBST(t) ==> forall y :: y in Elems(t) ==> y <= LastValue(t)
  {
    var s := InOrder(t);
    InOrderElems(t);
    assert s[|s| - 1] in multiset(s);
    if IsBST(t) {
      InOrderSorted(t);
      forall y | y in Elems(t) ensures y <= s[|s| - 1] {
        assert y in multiset(s);
        var k :| 0 <= k < |s| && s[k] == y;
      }
    }
  }

  /** The last value of a node with a right child is the last value of that child. */
  lemma LastValueDownRight(t: Tree)
    requires t.Node? && t.right.Node?
    ensures LastValue(t) == LastValue(t.right)
  {
    assert InOrder(t) == (InOrder(t.left) + [t.val]) + InOrder(t.right);
  }

  lemma LastValueNoRight(t: Tree)
    requires t.Node? && t.right.Nil?
    ensures LastValue(t) == t.val
  {
    assert InOrder(t) == InOrder(t.left) + [t.val];
  }

  /** On a search tree the second-to-last value bounds all but the last. */
  lemma SecondLastBounds(t: Tree)
    requires |InOrder(t)| >= 2
    ensures Size(t) >= 2
    ensures IsBST(t) ==>
      var s := InOrder(t);
      (forall i :: 0 <= i < |s| - 1 ==> s[i] <= s[|s| - 2]) && s[|s| - 2] <= s[|s| - 1]
  {
    InOrderElems(t);
    if IsBST(t) {
      InOrderSorted(t);
    }
  }

  /** A node with a child has at least two values in order. */
  lemma TwoInOrder(t: Tree)
    requires t.Node? && (t.left.Node? || t.right.Node?)
    ensures |InOrder(t)| >= 2
  {
    InOrderElems(t);
  }

  /** A node whose right child is a leaf comes second-to-last in its own in-order sequence. */
  lemma SecondLastBesideLeaf(t: Tree)
    requires t.Node? && t.right.Node? && t.right.left.Nil? && t.right.right.Nil?
    ensures |InOrder(t)| >= 2 && SecondLastValue(t) == t.val
  {
    assert InOrder(t.right) == [t.right.val];
    assert InOrder(t) == InOrder(t.left) + [t.val, t.right.val];
  }

  /** Without a right child, the second-to-last value is the last of the left subtree. */
  lemma SecondLastNoRight(t: Tree)
    requires t.Node? && t.right.Nil? && t.left.Node?
    ensures |InOrder(t)| >= 2 && SecondLastValue(t) == LastValue(t.left)
  {
    assert InOrder(t) == InOrder(t.left) + [t.val];
  }

  /** A right child with a child of its own ends the in-order sequence of its parent. */
  lemma SecondLastDownRight(t: Tree)
    requires t.Node? && t.right.Node? && (t.right.left.Node? || t.right.right.Node?)
    ensures |InOrder(t.right)| >= 2 && |InOrder(t)| >= 2
    ensures SecondLastValue(t) == SecondLastValue(t.right)
  {
    TwoInOrder(t.right);
    assert InOrder(t) == (InOrder(t.left) + [t.val]) + InOrder(t.right);
  }

  /** Two sorted sequences with the same elements are equal. */
  lemma {:induction false} SortedUnique(a: seq<int>, b: seq<int>)
    requires Sorted(a) && Sorted(b)
    requires multiset(a) == multiset(b)
    ensures a == b
    decreases |a|
  {
    if a == [] {
      assert |multiset(b)| == 0;
    } else {
      SameHeads(a, b);
      SortedTail(a);
      SortedTail(b);
      SortedUnique(a[1..], b[1..]);
      assert a == [a[0]] + a[1..];
      assert b == [b[0]] + b[1..];
    }
  }

  lemma SameHeads(a: seq<int>, b: seq<int>)
    requires Sorted(a) && Sorted(b) && a != []
    requires multiset(a) == multiset(b)
    ensures b != [] && a[0] == b[0]
    ensures multiset(a[1..]) == multiset(b[1..])
  {
    assert a[0] in multiset(a);
    SortedHeadLeast(b, a[0]);
    SortedHeadLeast(a, b[0]);
    HeadTail(a);
    HeadTail(b);
  }

  lemma SortedHeadLeast(s: seq<int>, y: int)
    requires Sorted(s) && y in multiset(s)
    ensures s != [] && s[0] <= y
  {
    var k :| 0 <= k < |s| && s[k] == y;
  }

  lemma HeadTail(s: seq<int>)
    requires s != []
    ensures multiset(s[1..]) == multiset(s) - multiset{s[0]}
  {
    assert s == [s[0]] + s[1..];
  }

  lemma SortedTail(s: seq<int>)
    requires Sorted(s) && s != []
    ensures Sorted(s[1..])
  {
    forall i, j | 0 <= i < j < |s| - 1 ensures s[1..][i] <= s[1..][j] {
      assert s[1..][i] == s[i + 1] && s[1..][j] == s[j + 1];
    }
  }
}
