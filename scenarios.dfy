/**
 * Concrete trees built by successive insertions, and what the balance
 * check, the level order and the second-highest query give on them.
 */
module Examples {
  import opened Trees
  import opened Insertion
  import opened Traversal
  import opened Balance

  function Leaf(x: int): Tree { Node(Nil, x, Nil) }

  /** Inserting 1, 2, 3, 4, 5 builds a right chain, which is not balanced. */
  lemma ChainIsUnbalanced()
    ensures !CheckBalanced(InsertRec(InsertRec(InsertRec(InsertRec(InsertRec(Nil, 1), 2), 3), 4), 5))
  {
    ChainBuilt();
  }

  /** The five insertions of the chain, one at a time. */
  lemma ChainBuilt()
    ensures InsertRec(InsertRec(InsertRec(InsertRec(InsertRec(Nil, 1), 2), 3), 4), 5)
            == Node(Nil, 1, Node(Nil, 2, Node(Nil, 3, Node(Nil, 4, Leaf(5)))))
  {
    var c2 := Node(Nil, 1, Leaf(2));
    var c3 := Node(Nil, 1, Node(Nil, 2, Leaf(3)));
    var c4 := Node(Nil, 1, Node(Nil, 2, Node(Nil, 3, Leaf(4))));
    assert InsertRec(InsertRec(Nil, 1), 2) == c2 by {}
    assert InsertRec(c2, 3) == c3 by {}
    assert InsertRec(c3, 4) == c4 by {}
    assert InsertRec(c4, 5) == Node(Nil, 1, Node(Nil, 2, Node(Nil, 3, Node(Nil, 4, Leaf(5))))) by {}
  }

  /** Inserting 4, 2, 6, 1, 3, 5, 7 builds the perfect tree of height 2, which is balanced. */
  lemma PerfectTreeIsBalanced()
    ensures CheckBalanced(InsertRec(InsertRec(InsertRec(InsertRec(InsertRec(InsertRec(InsertRec(
              Nil, 4), 2), 6), 1), 3), 5), 7))
  {
    var t3 := InsertRec(InsertRec(InsertRec(Nil, 4), 2), 6);
    assert t3 == Node(Leaf(2), 4, Leaf(6));
    var t5 := InsertRec(InsertRec(t3, 1), 3);
    assert t5 == Node(Node(Leaf(1), 2, Leaf(3)), 4, Leaf(6));
    assert InsertRec(InsertRec(t5, 5), 7) == Node(Node(Leaf(1), 2, Leaf(3)), 4, Node(Leaf(5), 6, Leaf(7)));
    PerfectHeightTwo();
  }

  lemma PerfectHeightTwo()
    ensures CheckBalanced(Node(Node(Leaf(1), 2, Leaf(3)), 4, Node(Leaf(5), 6, Leaf(7))))
  {
    PerfectIsBalanced(Leaf(1), 2, Leaf(3));
    PerfectIsBalanced(Leaf(5), 6, Leaf(7));
    PerfectIsBalanced(Node(Leaf(1), 2, Leaf(3)), 4, Node(Leaf(5), 6, Leaf(7)));
  }

  lemma PerfectIsBalanced(l: Tree, x: int, r: Tree)
    requires CheckBalanced(l) && CheckBalanced(r) && Height(l) == Height(r)
    ensures CheckBalanced(Node(l, x, r)) && Height(Node(l, x, r)) == Height(l) + 1
  {
  }

  /** Inserting 5, 3, 8, 1, 4, 7, 9 builds the perfect tree with that level order. */
  lemma LevelOrderExample()
    ensures AllNodes([InsertRec(InsertRec(InsertRec(InsertRec(InsertRec(InsertRec(InsertRec(
              Nil, 5), 3), 8), 1), 4), 7), 9)])
    ensures LevelOrder([InsertRec(InsertRec(InsertRec(InsertRec(InsertRec(InsertRec(InsertRec(
              Nil, 5), 3), 8), 1), 4), 7), 9)]) == [5, 3, 8, 1, 4, 7, 9]
  {
    LevelOrderTreeBuilt();
    PerfectLevelOrder(5, 3, 8, 1, 4, 7, 9);
  }

  /** The level order of a perfect tree of height 2 is root, children, grandchildren. */
  lemma PerfectLevelOrder(x: int, y: int, z: int, a: int, b: int, c: int, d: int)
    ensures AllNodes([Node(Node(Leaf(a), y, Leaf(b)), x, Node(Leaf(c), z, Leaf(d)))])
    ensures LevelOrder([Node(Node(Leaf(a), y, Leaf(b)), x, Node(Leaf(c), z, Leaf(d)))])
            == [x, y, z, a, b, c, d]
  {
    var l, r := Node(Leaf(a), y, Leaf(b)), Node(Leaf(c), z, Leaf(d));
    var g := [Leaf(a), Leaf(b), Leaf(c), Leaf(d)];
    assert LevelOrder(g) == [a, b, c, d] by {
      LastGeneration(a, b, c, d);
    }
    assert LevelOrder([l, r]) == [y, z] + [a, b, c, d] by {
      TwoRoots(l, r);
      assert Children(l) == [Leaf(a), Leaf(b)] && Children(r) == [Leaf(c), Leaf(d)];
      assert Children(l) + Children(r) == g;
    }
    OneRoot(l, x, r);
  }

  /** The seven insertions of the level-order example, a few at a time. */
  lemma LevelOrderTreeBuilt()
    ensures InsertRec(InsertRec(InsertRec(InsertRec(InsertRec(InsertRec(InsertRec(
              Nil, 5), 3), 8), 1), 4), 7), 9)
            == Node(Node(Leaf(1), 3, Leaf(4)), 5, Node(Leaf(7), 8, Leaf(9)))
  {
    var l := Node(Leaf(1), 3, Leaf(4));
    assert InsertRec(InsertRec(InsertRec(Nil, 5), 3), 8) == Node(Leaf(3), 5, Leaf(8)) by {}
    assert InsertRec(InsertRec(Node(Leaf(3), 5, Leaf(8)), 1), 4) == Node(l, 5, Leaf(8)) by {}
    assert InsertRec(InsertRec(Node(l, 5, Leaf(8)), 7), 9) == Node(l, 5, Node(Leaf(7), 8, Leaf(9))) by {}
  }

  /** A one-node generation whose node has two non-empty children. */
  lemma OneRoot(l: Tree, x: int, r: Tree)
    requires l.Node? && r.Node?
    ensures AllNodes([Node(l, x, r)]) && AllNodes([l, r])
    ensures LevelOrder([Node(l, x, r)]) == [x] + LevelOrder([l, r])
  {
    var t := Node(l, x, r);
    assert Roots([t]) == [x] && Kids([t]) == [l, r] by {
      InFront(t, []);
      assert [t] + [] == [t];
      assert Children(t) + [] == [l, r];
    }
    LevelOrderStep([t]);
  }

  /** A two-node generation: its two values, then its children's level order. */
  lemma TwoRoots(l: Tree, r: Tree)
    requires l.Node? && r.Node?
    ensures AllNodes([l, r]) && AllNodes(Children(l) + Children(r))
    ensures LevelOrder([l, r]) == [l.val, r.val] + LevelOrder(Children(l) + Children(r))
  {
    assert Roots([l, r]) == [l.val, r.val] && Kids([l, r]) == Children(l) + Children(r) by {
      InFront(r, []);
      assert [r] + [] == [r];
      InFront(l, [r]);
      assert [l] + [r] == [l, r];
      assert Children(r) + [] == Children(r);
    }
    LevelOrderStep([l, r]);
  }

  /** A generation of leaves is the last one: its level order is its values. */
  lemma LastGeneration(a: int, b: int, c: int, d: int)
    ensures AllNodes([Leaf(a), Leaf(b), Leaf(c), Leaf(d)])
    ensures LevelOrder([Leaf(a), Leaf(b), Leaf(c), Leaf(d)]) == [a, b, c, d]
  {
    var f := [Leaf(a), Leaf(b), Leaf(c), Leaf(d)];
    InFront(Leaf(d), []);
    assert [Leaf(d)] + [] == [Leaf(d)];
    InFront(Leaf(c), [Leaf(d)]);
    InFront(Leaf(b), [Leaf(c), Leaf(d)]);
    InFront(Leaf(a), [Leaf(b), Leaf(c), Leaf(d)]);
    assert [Leaf(a)] + [Leaf(b), Leaf(c), Leaf(d)] == f;
    LevelOrderStep(f);
    assert LevelOrder([]) == [];
  }

  /** A node in front of a generation adds its value, and its children in front of the next. */
  lemma InFront(n: Tree, f: seq<Tree>)
    requires n.Node? && AllNodes(f)
    ensures AllNodes([n] + f)
    ensures Roots([n] + f) == [n.val] + Roots(f)
    ensures Kids([n] + f) == Children(n) + Kids(f)
  {
    var g := [n] + f;
    assert g[0] == n && g[1..] == f;
  }

  /** In the tree built from 10, 5, 15, 3, 7, 12, 20 the second-highest value is 15. */
  lemma SecondHighestExample()
    ensures |InOrder(InsertRec(InsertRec(InsertRec(InsertRec(InsertRec(InsertRec(InsertRec(
              Nil, 10), 5), 15), 3), 7), 12), 20))| >= 2
    ensures SecondLastValue(InsertRec(InsertRec(InsertRec(InsertRec(InsertRec(InsertRec(InsertRec(
              Nil, 10), 5), 15), 3), 7), 12), 20)) == 15
  {
    SecondHighestTreeBuilt();
    assert InOrder(Node(Node(Leaf(3), 5, Leaf(7)), 10, Node(Leaf(12), 15, Leaf(20))))
           == [3, 5, 7, 10, 12, 15, 20];
  }

  /** The seven insertions of the second-highest example, a few at a time. */
  lemma SecondHighestTreeBuilt()
    ensures InsertRec(InsertRec(InsertRec(InsertRec(InsertRec(InsertRec(InsertRec(
              Nil, 10), 5), 15), 3), 7), 12), 20)
            == Node(Node(Leaf(3), 5, Leaf(7)), 10, Node(Leaf(12), 15, Leaf(20)))
  {
    var l := Node(Leaf(3), 5, Leaf(7));
    assert InsertRec(InsertRec(InsertRec(Nil, 10), 5), 15) == Node(Leaf(5), 10, Leaf(15)) by {}
    assert InsertRec(InsertRec(Node(Leaf(5), 10, Leaf(15)), 3), 7) == Node(l, 10, Leaf(15)) by {}
    assert InsertRec(InsertRec(Node(l, 10, Leaf(15)), 12), 20) == Node(l, 10, Node(Leaf(12), 15, Leaf(20))) by {}
  }
}
