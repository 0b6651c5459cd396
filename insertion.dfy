/**
 * Insertion: a value smaller than a node's goes left, anything else
 * (equal values included) goes right, and it is attached at the first
 * empty child slot on that route.
 */
module Insertion {
  import opened Trees

  /**
   * The recursive form (`insertRecursively`): the tree with `v` attached
   * at the first empty slot of its route.
   */
  function InsertRec(t: Tree, v: int): (r: Tree)
    ensures r.Node?
    ensures Elems(r) == Elems(t) + multiset{v}
    ensures Size(r) == Size(t) + 1
  {
    match t
    case Nil => Node(Nil, v, Nil)
    case Node(l, x, rt) =>
      if v < x then Node(InsertRec(l, v), x, rt)
      else Node(l, x, InsertRec(rt, v))
  }

  /** Insertion keeps the search-tree order. */
  lemma {:induction false} InsertKeepsOrder(t: Tree, v: int)
    requires IsBST(t)
    ensures IsBST(InsertRec(t, v))
  {
    match t
    case Nil =>
    case Node(l, x, r) =>
      if v < x {
        InsertKeepsOrder(l, v);
        InsertStaysBelow(l, x, v);
        assert IsBST(Node(InsertRec(l, v), x, r));
      } else {
        InsertKeepsOrder(r, v);
        InsertStaysAbove(r, x, v);
        assert IsBST(Node(l, x, InsertRec(r, v)));
      }
  }

  lemma InsertStaysBelow(t: Tree, x: int, v: int)
    requires v < x
    requires forall y :: y in Elems(t) ==> y < x
    ensures forall y :: y in Elems(InsertRec(t, v)) ==> y < x
  {
  }

  lemma InsertStaysAbove(t: Tree, x: int, v: int)
    requires x <= v
    requires forall y :: y in Elems(t) ==> x <= y
    ensures forall y :: y in Elems(InsertRec(t, v)) ==> x <= y
  {
  }

  /**
   * The iterative form (`insert`) descends with a path of frames, each
   * recording the node it left and the side it took; `Plug` puts a
   * rebuilt subtree back under that path. `path[0]` is the frame nearest
   * to the subtree.
   */
  datatype Frame = WentLeft(val: int, right: Tree) | WentRight(left: Tree, val: int)

  function Fill(f: Frame, t: Tree): (r: Tree)
    ensures r.Node?
  {
    match f
    case WentLeft(x, rt) => Node(t, x, rt)
    case WentRight(l, x) => Node(l, x, t)
  }

  function Plug(path: seq<Frame>, t: Tree): Tree
  {
    if path == [] then t else Plug(path[1..], Fill(path[0], t))
  }

  lemma PlugPush(f: Frame, path: seq<Frame>, t: Tree)
    ensures Plug([f] + path, t) == Plug(path, Fill(f, t))
  {
    assert ([f] + path)[1..] == path;
  }

  /** Inserting the values of `xs` one after another, from the left. */
  function InsertAll(t: Tree, xs: seq<int>): (r: Tree)
    ensures Elems(r) == Elems(t) + multiset(xs)
    decreases |xs|
  {
    if xs == [] then t
    else
      assert xs == [xs[0]] + xs[1..];
      InsertAll(InsertRec(t, xs[0]), xs[1..])
  }

  /** Any sequence of insertions into a search tree leaves a search tree. */
  lemma {:induction false} InsertAllKeepsOrder(t: Tree, xs: seq<int>)
    requires IsBST(t)
    ensures IsBST(InsertAll(t, xs))
    ensures Sorted(InOrder(InsertAll(t, xs)))
    decreases |xs|
  {
    if xs == [] {
      InOrderSorted(t);
    } else {
      InsertKeepsOrder(t, xs[0]);
      InsertAllKeepsOrder(InsertRec(t, xs[0]), xs[1..]);
    }
  }
}
