/**
 * Removal by recursive rebuild: the subtree that should replace each
 * visited slot is returned to the parent. A node holding the target with
 * two children takes the value of its in-order successor (the leftmost
 * node of its right subtree), and that value is then removed from the
 * right subtree.
 */
module Removal {
  import opened Wrappers
  import opened Trees
  import opened Lookup
  import Insertion

  /** The leftmost node of a non-empty subtree (what `getMin` walks to). */
  ghost function Leftmost(t: Tree): (m: Tree)
    requires t.Node?
    ensures m.Node? && m.left.Nil? && m in Subtrees(t)
    ensures |InOrder(t)| > 0 && InOrder(t)[0] == m.val
  {
    if t.left.Nil? then t else Leftmost(t.left)
  }

  /** The subtree `removeNode(t, v)` returns. */
  ghost function Removed(t: Tree, v: int): Tree
  {
    match t
    case Nil => Nil
    case Node(l, x, r) =>
      if v == x then
        if l.Nil? && r.Nil? then Nil
        else if l.Nil? then r
        else if r.Nil? then l
        else
          var m := Leftmost(r).val;
          Node(l, m, Removed(r, m))
      else if v < x then Node(Removed(l, v), x, r)
      else Node(l, x, Removed(r, v))
  }

  /** `getMin`: follow left children to the leftmost node. */
  method GetMin(node: Tree) returns (m: Tree)
    requires node.Node?
    ensures m == Leftmost(node)
  {
    m := node;
    while m.left.Node?
      invariant m.Node? && Leftmost(m) == Leftmost(node)
      decreases m
    {
      m := m.left;
    }
  }

  /** `removeNode`: the subtree that replaces `node` once `v` is removed from it. */
  method RemoveNode(node: Tree, v: int) returns (r: Tree)
    ensures r == Removed(node, v)
    decreases node
  {
    if node.Nil? {
      return Nil;
    }
    if v == node.val {
      if node.left.Nil? && node.right.Nil? {
        return Nil;
      }
      if node.left.Nil? {
        return node.right;
      }
      if node.right.Nil? {
        return node.left;
      }
      var temp := GetMin(node.right);
      var right := RemoveNode(node.right, temp.val);
      return Node(node.left, temp.val, right);
    } else if v < node.val {
      var left := RemoveNode(node.left, v);
      return Node(left, node.val, node.right);
    } else {
      var right := RemoveNode(node.right, v);
      return Node(node.left, node.val, right);
    }
  }

  /** In a search tree the leftmost value is the least one stored. */
  lemma {:induction false} LeftmostIsLeast(t: Tree)
    requires IsBST(t) && t.Node?
    ensures Leftmost(t).val in Elems(t)
    ensures forall y :: y in Elems(t) ==> Leftmost(t).val <= y
  {
    if t.left.Node? {
      LeftmostIsLeast(t.left);
    }
  }

  /**
   * Removing the successor value from a right subtree acts on its leftmost
   * node, which has no left child: the route for the least value ends there.
   */
  lemma {:induction false} SuccessorRouteEndsAtLeftmost(t: Tree)
    requires IsBST(t) && t.Node?
    ensures FindRec(t, Leftmost(t).val) == Some(Leftmost(t))
    ensures Leftmost(t).left.Nil?
  {
    if t.left.Node? {
      LeftmostIsLeast(t.left);
      SuccessorRouteEndsAtLeftmost(t.left);
    }
  }

  /** When the route for `v` finds no node holding it, removal changes nothing. */
  lemma {:induction false} RemoveAbsent(t: Tree, v: int)
    requires FindRec(t, v).None?
    ensures Removed(t, v) == t
  {
    match t
    case Nil =>
    case Node(l, x, r) =>
      if v < x {
        RemoveAbsent(l, v);
      } else if v > x {
        RemoveAbsent(r, v);
      }
  }

  /** On a search tree removal takes away exactly one occurrence of `v`, if any. */
  lemma {:induction false} RemoveElems(t: Tree, v: int)
    requires IsBST(t)
    ensures Elems(Removed(t, v)) == Elems(t) - multiset{v}
  {
    match t
    case Nil =>
    case Node(l, x, r) =>
      if v == x {
        TakeRoot(Elems(l), x, Elems(r));
        if l.Node? && r.Node? {
          var m := Leftmost(r).val;
          LeftmostIsLeast(r);
          RemoveElems(r, m);
          PutBack(Elems(l), m, Elems(r));
        } else {
          ElemsCount(l);
          ElemsCount(r);
        }
      } else if v < x {
        RemoveElems(l, v);
        assert v !in Elems(r);
        TakeLeft(Elems(l), x, Elems(r), v);
      } else {
        RemoveElems(r, v);
        assert v !in Elems(l);
        TakeRight(Elems(l), x, Elems(r), v);
      }
  }

  lemma TakeRoot(a: multiset<int>, x: int, b: multiset<int>)
    ensures (a + multiset{x} + b) - multiset{x} == a + b
  {
  }

  lemma PutBack(a: multiset<int>, m: int, b: multiset<int>)
    requires m in b
    ensures a + multiset{m} + (b - multiset{m}) == a + b
  {
  }

  lemma TakeLeft(a: multiset<int>, x: int, b: multiset<int>, v: int)
    requires v != x && v !in b
    ensures (a + multiset{x} + b) - multiset{v} == (a - multiset{v}) + multiset{x} + b
  {
  }

  lemma TakeRight(a: multiset<int>, x: int, b: multiset<int>, v: int)
    requires v != x && v !in a
    ensures (a + multiset{x} + b) - multiset{v} == a + multiset{x} + (b - multiset{v})
  {
  }

  /** Removal keeps the search-tree order. */
  lemma {:induction false} RemoveKeepsOrder(t: Tree, v: int)
    requires IsBST(t)
    ensures IsBST(Removed(t, v))
  {
    match t
    case Nil =>
    case Node(l, x, r) =>
      if v == x {
        if l.Node? && r.Node? {
          var m := Leftmost(r).val;
          RemoveKeepsOrder(r, m);
          SuccessorKeepsOrder(l, x, r);
        }
      } else if v < x {
        RemoveKeepsOrder(l, v);
        RemoveStaysBelow(l, v, x);
        Join(Removed(l, v), x, r);
      } else {
        RemoveKeepsOrder(r, v);
        RemoveStaysAbove(r, v, x);
        Join(l, x, Removed(r, v));
      }
  }

  /** The two-child case: the successor value may stand between the two subtrees. */
  lemma SuccessorKeepsOrder(l: Tree, x: int, r: Tree)
    requires IsBST(Node(l, x, r)) && r.Node?
    requires IsBST(Removed(r, Leftmost(r).val))
    ensures IsBST(Node(l, Leftmost(r).val, Removed(r, Leftmost(r).val)))
  {
    var m := Leftmost(r).val;
    LeftmostIsLeast(r);
    RemoveElems(r, m);
    BoundsAfterRemove(l, Removed(r, m), x, m, Elems(r));
    Join(l, m, Removed(r, m));
  }

  lemma Join(l: Tree, x: int, r: Tree)
    requires IsBST(l) && IsBST(r)
    requires forall y :: y in Elems(l) ==> y < x
    requires forall y :: y in Elems(r) ==> x <= y
    ensures IsBST(Node(l, x, r))
  {
  }

  lemma RemoveStaysBelow(t: Tree, v: int, x: int)
    requires IsBST(t)
    requires forall y :: y in Elems(t) ==> y < x
    ensures forall y :: y in Elems(Removed(t, v)) ==> y < x
  {
    RemoveElems(t, v);
    forall y | y in Elems(Removed(t, v)) ensures y < x {
      assert y in Elems(t);
    }
  }

  lemma RemoveStaysAbove(t: Tree, v: int, x: int)
    requires IsBST(t)
    requires forall y :: y in Elems(t) ==> x <= y
    ensures forall y :: y in Elems(Removed(t, v)) ==> x <= y
  {
    RemoveElems(t, v);
    forall y | y in Elems(Removed(t, v)) ensures x <= y {
      assert y in Elems(t);
    }
  }

  lemma BoundsAfterRemove(l: Tree, r': Tree, x: int, m: int, old_r: multiset<int>)
    requires x <= m
    requires forall y :: y in Elems(l) ==> y < x
    requires forall y :: y in old_r ==> m <= y
    requires Elems(r') == old_r - multiset{m}
    ensures forall y :: y in Elems(l) ==> y < m
    ensures forall y :: y in Elems(r') ==> m <= y
  {
    forall y | y in Elems(r') ensures m <= y {
      assert y in old_r;
    }
  }

  /**
   * Inserting a value and removing it again gives back a tree with the same
   * in-order sequence, even when the removal takes an older duplicate.
   */
  lemma {:induction false} InsertThenRemove(t: Tree, v: int)
    requires IsBST(t)
    ensures InOrder(Removed(Insertion.InsertRec(t, v), v)) == InOrder(t)
  {
    var t' := Insertion.InsertRec(t, v);
    var u := Removed(t', v);
    Insertion.InsertKeepsOrder(t, v);
    assert Elems(u) == Elems(t) by {
      RemoveElems(t', v);
    }
    assert Sorted(InOrder(u)) by {
      RemoveKeepsOrder(t', v);
      InOrderSorted(u);
    }
    InOrderSorted(t);
    InOrderElems(t);
    InOrderElems(u);
    SortedUnique(InOrder(u), InOrder(t));
  }
}
