/**
 * Lookup: at each node equality is tested first, then `<` sends the
 * search left and anything else right; an empty slot means "not found".
 * The found node is returned as the subtree it roots.
 */
module Lookup {
  import opened Wrappers
  import opened Trees
  import Insertion

  /** The recursive form (`findRecursively`). */
  function FindRec(t: Tree, v: int): (r: Option<Tree>)
    ensures r.Some? ==> r.value in Subtrees(t) && r.value.Node? && r.value.val == v
  {
    match t
    case Nil => None
    case Node(l, x, rt) =>
      if v == x then Some(t)
      else if v < x then FindRec(l, v)
      else FindRec(rt, v)
  }

  /** On a search tree the route reaches a node holding `v` exactly when `v` is stored. */
  lemma {:induction false} FindIffStored(t: Tree, v: int)
    requires IsBST(t)
    ensures FindRec(t, v).Some? <==> v in Elems(t)
  {
    match t
    case Nil =>
    case Node(l, x, r) =>
      if v < x {
        FindIffStored(l, v);
        assert v !in Elems(r);
      } else if v > x {
        FindIffStored(r, v);
        assert v !in Elems(l);
      }
  }

  /** Every value inserted into an empty tree is found, and no other. */
  lemma {:induction false} FindAfterInserts(xs: seq<int>, v: int)
    ensures FindRec(Insertion.InsertAll(Nil, xs), v).Some? <==> v in xs
  {
    Insertion.InsertAllKeepsOrder(Nil, xs);
    FindIffStored(Insertion.InsertAll(Nil, xs), v);
  }
}
