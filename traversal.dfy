/**
 * Traversals. The three depth-first orders push each visited value onto
 * a shared result from a recursive helper; here the helper receives the
 * result so far and returns it extended. Breadth-first order uses a FIFO
 * queue of non-empty subtrees seeded with the root.
 */
module Traversal {
  import opened Trees

  /** `traverse` of `dfsPreOrder`: value, then left child, then right child. */
  method PreOrderFrom(node: Tree, acc: seq<int>) returns (result: seq<int>)
    requires node.Node?
    ensures result == acc + PreOrder(node)
    decreases node
  {
    result := acc + [node.val];
    if node.left.Node? {
      result := PreOrderFrom(node.left, result);
    }
    if node.right.Node? {
      result := PreOrderFrom(node.right, result);
    }
  }

  /** `traverse` of `dfsInOrder`: left child, then value, then right child. */
  method InOrderFrom(node: Tree, acc: seq<int>) returns (result: seq<int>)
    requires node.Node?
    ensures result == acc + InOrder(node)
    decreases node
  {
    result := acc;
    if node.left.Node? {
      result := InOrderFrom(node.left, result);
    }
    result := result + [node.val];
    if node.right.Node? {
      result := InOrderFrom(node.right, result);
    }
  }

  /** `traverse` of `dfsPostOrder`: left child, then right child, then value. */
  method PostOrderFrom(node: Tree, acc: seq<int>) returns (result: seq<int>)
    requires node.Node?
    ensures result == acc + PostOrder(node)
    decreases node
  {
    result := acc;
    if node.left.Node? {
      result := PostOrderFrom(node.left, result);
    }
    if node.right.Node? {
      result := PostOrderFrom(node.right, result);
    }
    result := result + [node.val];
  }

  // ---- Breadth-first order ----

  /** A queue or a generation of nodes: no empty slots in it. */
  ghost predicate AllNodes(f: seq<Tree>)
  {
    forall i :: 0 <= i < |f| ==> f[i].Node?
  }

  ghost function ForestSize(f: seq<Tree>): nat
  {
    if f == [] then 0 else Size(f[0]) + ForestSize(f[1..])
  }

  ghost function ForestElems(f: seq<Tree>): multiset<int>
  {
    if f == [] then multiset{} else Elems(f[0]) + ForestElems(f[1..])
  }

  /** The non-empty children of `n`, left before right. */
  ghost function Children(n: Tree): (c: seq<Tree>)
    requires n.Node?
    ensures AllNodes(c)
  {
    if n.left.Node? && n.right.Node? then [n.left, n.right]
    else if n.left.Node? then [n.left]
    else if n.right.Node? then [n.right]
    else []
  }

  lemma ChildrenContents(n: Tree)
    requires n.Node?
    ensures ForestSize(Children(n)) == Size(n.left) + Size(n.right)
    ensures ForestElems(Children(n)) == Elems(n.left) + Elems(n.right)
  {
    Single(n.left);
    Single(n.right);
    if n.left.Node? && n.right.Node? {
      assert Children(n) == [n.left] + [n.right];
      ForestSizeAppend([n.left], [n.right]);
      ForestElemsAppend([n.left], [n.right]);
    } else {
      ElemsCount(n.left);
      ElemsCount(n.right);
    }
  }

  /** `Children` is what `bfs` pushes: the left child if any, then the right child if any. */
  lemma ChildrenInQueueOrder(n: Tree)
    requires n.Node?
    ensures Children(n) == (if n.left.Node? then [n.left] else []) + (if n.right.Node? then [n.right] else [])
  {
  }

  lemma Single(t: Tree)
    ensures ForestSize([t]) == Size(t)
    ensures ForestElems([t]) == Elems(t)
  {
    assert [t][1..] == [];
  }

  /** The values of a generation, left to right. */
  ghost function Roots(f: seq<Tree>): (r: seq<int>)
    requires AllNodes(f)
    ensures |r| == |f|
  {
    if f == [] then [] else [f[0].val] + Roots(f[1..])
  }

  /** The next generation: the non-empty children of `f`, left to right. */
  ghost function Kids(f: seq<Tree>): (k: seq<Tree>)
    requires AllNodes(f)
    ensures AllNodes(k)
  {
    if f == [] then [] else Children(f[0]) + Kids(f[1..])
  }

  lemma {:induction false} ForestSizeAppend(f: seq<Tree>, g: seq<Tree>)
    ensures ForestSize(f + g) == ForestSize(f) + ForestSize(g)
    decreases |f|
  {
    if f != [] {
      assert (f + g)[1..] == f[1..] + g;
      ForestSizeAppend(f[1..], g);
    } else {
      assert f + g == g;
    }
  }

  lemma {:induction false} ForestElemsAppend(f: seq<Tree>, g: seq<Tree>)
    ensures ForestElems(f + g) == ForestElems(f) + ForestElems(g)
    decreases |f|
  {
    if f != [] {
      assert (f + g)[1..] == f[1..] + g;
      ForestElemsAppend(f[1..], g);
    } else {
      assert f + g == g;
    }
  }

  /** Each generation has one node fewer per member than the one before. */
  lemma {:induction false} KidsSize(f: seq<Tree>)
    requires AllNodes(f)
    ensures ForestSize(Kids(f)) + |f| == ForestSize(f)
    decreases |f|
  {
    if f != [] {
      var a, f' := f[0], f[1..];
      KidsSize(f');
      ChildrenContents(a);
      ForestSizeAppend(Children(a), Kids(f'));
    }
  }

  /** A generation's values and the next generation's contents make up the generation's contents. */
  lemma {:induction false} KidsElems(f: seq<Tree>)
    requires AllNodes(f)
    ensures multiset(Roots(f)) + ForestElems(Kids(f)) == ForestElems(f)
    decreases |f|
  {
    if f != [] {
      var a, f' := f[0], f[1..];
      KidsElems(f');
      ChildrenContents(a);
      ForestElemsAppend(Children(a), Kids(f'));
      assert multiset(Roots(f)) == multiset{a.val} + multiset(Roots(f')) by {
        assert Roots(f) == [a.val] + Roots(f');
      }
      Regroup(a.val, multiset(Roots(f')), ForestElems(Kids(f')), Elems(a.left), Elems(a.right),
              ForestElems(f'));
    }
  }

  lemma Regroup(x: int, r: multiset<int>, k: multiset<int>, el: multiset<int>, er: multiset<int>,
                rest: multiset<int>)
    requires r + k == rest
    ensures (multiset{x} + r) + ((el + er) + k) == (el + multiset{x} + er) + rest
  {
  }

  /**
   * Level order as a definition independent of any queue: the values of
   * the current generation left to right, then the level order of the
   * next generation. `LevelOrder([t])` lists depth 0, then depth 1, ...
   */
  ghost function LevelOrder(f: seq<Tree>): seq<int>
    requires AllNodes(f)
    decreases ForestSize(f)
  {
    if f == [] then []
    else
      KidsSize(f);
      Roots(f) + LevelOrder(Kids(f))
  }

  /** One generation of `LevelOrder`: its values, then the level order of the next. */
  lemma LevelOrderStep(f: seq<Tree>)
    requires AllNodes(f) && f != []
    ensures LevelOrder(f) == Roots(f) + LevelOrder(Kids(f))
  {
  }

  /**
   * What the `bfs` loop still appends when its queue holds `q`: dequeue
   * the front node, append its value, enqueue its non-empty children.
   */
  ghost function BfsQueue(q: seq<Tree>): seq<int>
    requires AllNodes(q)
    decreases ForestSize(q)
  {
    if q == [] then []
    else
      BfsStep(q);
      [q[0].val] + BfsQueue(q[1..] + Children(q[0]))
  }

  lemma BfsStep(q: seq<Tree>)
    requires AllNodes(q) && q != []
    ensures AllNodes(q[1..] + Children(q[0]))
    ensures ForestSize(q[1..] + Children(q[0])) == ForestSize(q) - 1
  {
    ForestSizeAppend(q[1..], Children(q[0]));
    ChildrenContents(q[0]);
  }

  /** One turn of the `bfs` loop: the front value moves from the queue to the output. */
  lemma BfsAdvance(out: seq<int>, q: seq<Tree>)
    requires AllNodes(q) && q != []
    ensures AllNodes(q[1..] + Children(q[0]))
    ensures ForestSize(q[1..] + Children(q[0])) < ForestSize(q)
    ensures out + BfsQueue(q) == (out + [q[0].val]) + BfsQueue(q[1..] + Children(q[0]))
  {
    BfsStep(q);
  }

  /** Draining the nodes `f` ahead of `g` emits their values and queues their children behind `g`. */
  lemma {:induction false} BfsQueueDrains(f: seq<Tree>, g: seq<Tree>)
    requires AllNodes(f) && AllNodes(g)
    ensures AllNodes(f + g) && AllNodes(g + Kids(f))
    ensures BfsQueue(f + g) == Roots(f) + BfsQueue(g + Kids(f))
    decreases |f|
  {
    AllNodesAppend(f, g);
    AllNodesAppend(g, Kids(f));
    if f == [] {
      assert f + g == g && g + Kids(f) == g;
    } else {
      var a, f' := f[0], f[1..];
      var g' := g + Children(a);
      AllNodesAppend(g, Children(a));
      assert BfsQueue(f + g) == [a.val] + BfsQueue(f' + g') by {
        var q := f + g;
        assert q[0] == a;
        assert q[1..] + Children(a) == f' + g';
        BfsStep(q);
      }
      BfsQueueDrains(f', g');
      assert g' + Kids(f') == g + Kids(f) by {
        assert Kids(f) == Children(a) + Kids(f');
      }
      assert Roots(f) == [a.val] + Roots(f');
    }
  }

  lemma AllNodesAppend(f: seq<Tree>, g: seq<Tree>)
    requires AllNodes(f) && AllNodes(g)
    ensures AllNodes(f + g)
  {
  }

  /** The queue discipline of `bfs` produces exactly the level order. */
  lemma {:induction false} BfsIsLevelOrder(f: seq<Tree>)
    requires AllNodes(f)
    ensures BfsQueue(f) == LevelOrder(f)
    decreases ForestSize(f)
  {
    if f != [] {
      BfsQueueDrains(f, []);
      assert f + [] == f && [] + Kids(f) == Kids(f);
      KidsSize(f);
      BfsIsLevelOrder(Kids(f));
    }
  }

  /** Level order lists every stored value once. */
  lemma {:induction false} LevelOrderElems(f: seq<Tree>)
    requires AllNodes(f)
    ensures multiset(LevelOrder(f)) == ForestElems(f)
    decreases ForestSize(f)
  {
    if f != [] {
      KidsSize(f);
      KidsElems(f);
      LevelOrderElems(Kids(f));
    }
  }

  /** The level order of a whole tree: its root first, every value once. */
  lemma LevelOrderOfTree(t: Tree)
    requires t.Node?
    ensures AllNodes([t])
    ensures BfsQueue([t]) == LevelOrder([t])
    ensures multiset(LevelOrder([t])) == Elems(t)
    ensures LevelOrder([t])[0] == t.val
  {
    BfsIsLevelOrder([t]);
    LevelOrderElems([t]);
    Single(t);
  }
}
