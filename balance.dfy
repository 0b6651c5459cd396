/**
 * The balance check of `isBalanced`: the heights of the two subtrees of
 * every node differ by at most one, with an empty subtree of height -1.
 */
module Balance {
  import opened Trees

  function Max(a: int, b: int): int { if a < b then b else a }

  function Abs(x: int): int { if x < 0 then -x else x }

  /** `height`: -1 for an empty slot, one more than the taller child otherwise. */
  function Height(t: Tree): (h: int)
    ensures -1 <= h < Size(t)
    ensures h == -1 <==> t.Nil?
  {
    match t
    case Nil => -1
    case Node(l, _, r) => Max(Height(l), Height(r)) + 1
  }

  /** The balance condition at a single node. */
  ghost predicate LocallyBalanced(t: Tree)
  {
    match t
    case Nil => true
    case Node(l, _, r) => Abs(Height(l) - Height(r)) <= 1
  }

  /** `checkBalanced`: the condition at this node and, recursively, below it. */
  function CheckBalanced(t: Tree): (b: bool)
    ensures b <==> forall s :: s in Subtrees(t) ==> LocallyBalanced(s)
  {
    match t
    case Nil => true
    case Node(l, _, r) =>
      if Abs(Height(l) - Height(r)) > 1 then
        assert t in Subtrees(t) && !LocallyBalanced(t);
        false
      else CheckBalanced(l) && CheckBalanced(r)
  }
}
