/**
 * The four traversals of models/avl.py and models/tree.py (`inorder`,
 * `preorder`, `postorder`, `bfs`) on tree values: each visits every node
 * exactly once, `inorder` in key order, `bfs` level by level.
 */
module Traversals {
  import opened Nodes
  import opened AvlSpec
  import opened Seqs

  // ---- Every node once ----

  /** The entries of all nodes of a tree, with multiplicity. */
  ghost function Entries<V>(t: Tree<V>): multiset<Entry<V>> {
    if t.Empty? then multiset{} else Entries(t.left) + multiset{EntryOf(t)} + Entries(t.right)
  }

  /** `inorder`, `preorder` and `postorder` each yield every node exactly once. */
  lemma TraversalsVisitEveryNode<V>(t: Tree<V>)
    ensures multiset(Inorder(t)) == Entries(t)
    ensures multiset(Preorder(t)) == Entries(t)
    ensures multiset(Postorder(t)) == Entries(t)
  {
    InorderVisitsEveryNode(t);
    PreorderVisitsEveryNode(t);
    PostorderVisitsEveryNode(t);
  }

  lemma {:induction false} InorderVisitsEveryNode<V>(t: Tree<V>)
    ensures multiset(Inorder(t)) == Entries(t)
  {
    if t.Branch? {
      InorderVisitsEveryNode(t.left);
      InorderVisitsEveryNode(t.right);
      assert Inorder(t) == Inorder(t.left) + [EntryOf(t)] + Inorder(t.right);
    }
  }

  lemma {:induction false} PreorderVisitsEveryNode<V>(t: Tree<V>)
    ensures multiset(Preorder(t)) == Entries(t)
  {
    if t.Branch? {
      PreorderVisitsEveryNode(t.left);
      PreorderVisitsEveryNode(t.right);
      assert Preorder(t) == [EntryOf(t)] + Preorder(t.left) + Preorder(t.right);
    }
  }

  lemma {:induction false} PostorderVisitsEveryNode<V>(t: Tree<V>)
    ensures multiset(Postorder(t)) == Entries(t)
  {
    if t.Branch? {
      PostorderVisitsEveryNode(t.left);
      PostorderVisitsEveryNode(t.right);
      assert Postorder(t) == Postorder(t.left) + Postorder(t.right) + [EntryOf(t)];
    }
  }

  /** Every entry `preorder` yields is a node of the tree, so its key is one of the tree's keys. */
  lemma {:induction false} PreorderKeys<V>(t: Tree<V>, key: V -> Coord)
    ensures forall i :: 0 <= i < |Preorder(t)| ==> key(Preorder(t)[i].value) in Keys(t, key)
  {
    if t.Branch? {
      PreorderKeys(t.left, key);
      PreorderKeys(t.right, key);
      var a, b := Preorder(t.left), Preorder(t.right);
      assert Preorder(t) == [EntryOf(t)] + a + b;
      forall i | 0 <= i < |Preorder(t)|
        ensures key(Preorder(t)[i].value) in Keys(t, key)
      {
        if 1 <= i < 1 + |a| {
          assert Preorder(t)[i] == a[i - 1];
        } else if 1 + |a| <= i {
          assert Preorder(t)[i] == b[i - 1 - |a|];
        }
      }
    }
  }

  /** A filter of the preorder splits at the node: its own entry, then the left and right preorders. */
  lemma PreorderFilter<V>(t: Tree<V>, p: Entry<V> -> bool)
    requires t.Branch?
    ensures Filter(Preorder(t), p) == Filter([EntryOf(t)], p) + Filter(Preorder(t.left), p) + Filter(Preorder(t.right), p)
  {
    var e, pl, pr := EntryOf(t), Preorder(t.left), Preorder(t.right);
    assert Preorder(t) == [e] + pl + pr;
    FilterConcat([e] + pl, pr, p);
    FilterConcat([e], pl, p);
  }

  /** Every traversal yields as many entries as the tree has nodes. */
  lemma {:induction false} TraversalLengths<V>(t: Tree<V>)
    ensures |Inorder(t)| == |Preorder(t)| == |Postorder(t)| == Size(t)
  {
    if t.Branch? {
      TraversalLengths(t.left);
      TraversalLengths(t.right);
    }
  }

  /** The in-order keys of an ordered tree strictly increase, so no entry is visited twice. */
  lemma InorderNoRepeats<V>(t: Tree<V>, key: V -> Coord)
    requires Ordered(t, key)
    ensures forall i, j :: 0 <= i < j < |Inorder(t)| ==> Inorder(t)[i] != Inorder(t)[j]
  {
    InorderSorted(t, key);
    forall i, j | 0 <= i < j < |Inorder(t)|
      ensures Inorder(t)[i] != Inorder(t)[j]
    {
      var a, b := key(Inorder(t)[i].value), key(Inorder(t)[j].value);
      BelowIsStrictTotalOrder(a, b, a);
    }
  }

  // ---- Breadth-first order ----

  /** The children `bfs` appends to the queue after visiting `t`: left, then right, absent ones skipped. */
  function Kids<V>(t: Tree<V>): (q: seq<Tree<V>>)
    requires t.Branch?
    ensures forall i :: 0 <= i < |q| ==> q[i].Branch?
  {
    Present(t.left) + Present(t.right)
  }

  /** A child as `bfs` enqueues it: a one-element queue, or nothing when the child is absent. */
  function Present<V>(s: Tree<V>): (q: seq<Tree<V>>)
    ensures s.Branch? ==> q == [s]
    ensures s.Empty? ==> q == []
  {
    if s.Branch? then [s] else []
  }

  /** The number of nodes in all subtrees of a queue. */
  function SizeAll<V>(q: seq<Tree<V>>): nat {
    if |q| == 0 then 0 else Size(q[0]) + SizeAll(q[1..])
  }

  lemma {:induction false} SizeAllConcat<V>(a: seq<Tree<V>>, b: seq<Tree<V>>)
    ensures SizeAll(a + b) == SizeAll(a) + SizeAll(b)
  {
    if |a| == 0 {
      assert a + b == b;
    } else {
      SizeAllConcat(a[1..], b);
      assert (a + b)[1..] == a[1..] + b;
    }
  }

  lemma KidsSize<V>(t: Tree<V>)
    requires t.Branch?
    ensures SizeAll(Kids(t)) == Size(t) - 1
  {
    var a := if t.left.Branch? then [t.left] else [];
    var b := if t.right.Branch? then [t.right] else [];
    SizeAllConcat(a, b);
    assert a == [] || a[1..] == [];
    assert b == [] || b[1..] == [];
  }

  /**
   * `bfs` run on a queue: pop the front, yield it, append its children,
   * until the queue is empty. `bfs` never enqueues an absent subtree
   * (see `Kids`); one would be skipped.
   */
  function BfsFrom<V>(q: seq<Tree<V>>): (r: seq<Entry<V>>)
    ensures |r| == SizeAll(q)
    decreases SizeAll(q), |q|
  {
    if |q| == 0 then []
    else if q[0].Empty? then BfsFrom(q[1..])
    else
      var next := q[1..] + Kids(q[0]);
      SizeAllConcat(q[1..], Kids(q[0]));
      KidsSize(q[0]);
      [EntryOf(q[0])] + BfsFrom(next)
  }

  /** One round of the queue loop: the front node is yielded and its children join the back. */
  lemma BfsFromStep<V>(q: seq<Tree<V>>)
    requires |q| > 0 && q[0].Branch?
    ensures BfsFrom(q) == [EntryOf(q[0])] + BfsFrom(q[1..] + Kids(q[0]))
    ensures SizeAll(q[1..] + Kids(q[0])) < SizeAll(q)
  {
    SizeAllConcat(q[1..], Kids(q[0]));
    KidsSize(q[0]);
  }

  /** `bfs(root)`: nothing for an absent root, otherwise the queue run from the root alone. */
  function LevelOrder<V>(t: Tree<V>): seq<Entry<V>> {
    if t.Empty? then [] else BfsFrom([t])
  }

  /**
   * `bfs(root)` as the source runs it: a list queue, popped at the front,
   * with each popped node's present children appended, left before right.
   * The entries it yields, in order, are `LevelOrder(root)`.
   */
  method Bfs<V>(root: Tree<V>) returns (out: seq<Entry<V>>)
    ensures out == LevelOrder(root)
    ensures root.Empty? ==> out == []
  {
    out := [];
    if root.Empty? {
      return;
    }
    var queue := [root];
    while |queue| > 0
      invariant forall i :: 0 <= i < |queue| ==> queue[i].Branch?
      invariant out + BfsFrom(queue) == LevelOrder(root)
      decreases SizeAll(queue), |queue|
    {
      var node := queue[0];
      var rest := queue[1..];
      BfsFromStep(queue);
      ConcatAssoc(out, [EntryOf(node)], BfsFrom(rest + Kids(node)));
      out := out + [EntryOf(node)];
      queue := rest;
      if node.left.Branch? {
        queue := queue + [node.left];
      }
      assert queue == rest + Present(node.left);
      if node.right.Branch? {
        queue := queue + [node.right];
      }
      assert queue == rest + Present(node.left) + Present(node.right);
      ConcatAssoc(rest, Present(node.left), Present(node.right));
    }
  }

  /** The entries of the roots of a queue, front to back. */
  function Roots<V>(q: seq<Tree<V>>): seq<Entry<V>> {
    if |q| == 0 then []
    else if q[0].Empty? then Roots(q[1..])
    else [EntryOf(q[0])] + Roots(q[1..])
  }

  /** The next level of a queue: each subtree's children, in queue order. */
  function NextLevel<V>(q: seq<Tree<V>>): seq<Tree<V>> {
    if |q| == 0 then []
    else if q[0].Empty? then NextLevel(q[1..])
    else Kids(q[0]) + NextLevel(q[1..])
  }

  /** Every level holds at least one node per non-empty subtree of the queue above it. */
  lemma {:induction false} NextLevelSize<V>(q: seq<Tree<V>>)
    ensures SizeAll(NextLevel(q)) + |Roots(q)| == SizeAll(q)
  {
    if |q| > 0 {
      NextLevelSize(q[1..]);
      if q[0].Branch? {
        KidsSize(q[0]);
        SizeAllConcat(Kids(q[0]), NextLevel(q[1..]));
      }
    }
  }

  /**
   * The reference order: a whole level, left to right, then the next
   * level, independent of any queue.
   */
  function Levels<V>(q: seq<Tree<V>>): seq<Entry<V>>
    decreases SizeAll(q)
  {
    if SizeAll(q) == 0 then []
    else
      NextLevelSize(q);
      assert |Roots(q)| > 0 by { NonEmptyRoots(q); }
      Roots(q) + Levels(NextLevel(q))
  }

  /** A queue holding a node has a root to yield. */
  lemma {:induction false} NonEmptyRoots<V>(q: seq<Tree<V>>)
    requires SizeAll(q) > 0
    ensures |Roots(q)| > 0
  {
    if q[0].Empty? {
      NonEmptyRoots(q[1..]);
    }
  }

  /** A queue without nodes yields nothing. */
  lemma {:induction false} EmptyQueue<V>(q: seq<Tree<V>>)
    requires SizeAll(q) == 0
    ensures BfsFrom(q) == [] && Roots(q) == [] && NextLevel(q) == []
  {
    if |q| > 0 {
      EmptyQueue(q[1..]);
    }
  }

  lemma ConcatTail<T>(a: seq<T>, b: seq<T>)
    requires |a| > 0
    ensures (a + b)[0] == a[0] && (a + b)[1..] == a[1..] + b
  {
  }

  lemma ConcatAssoc<T>(a: seq<T>, b: seq<T>, c: seq<T>)
    ensures a + b + c == a + (b + c)
  {
  }

  /**
   * Running the queue through a prefix `a` yields `a`'s roots and leaves
   * the rest of the queue followed by `a`'s children.
   */
  lemma {:induction false} BfsPrefix<V>(a: seq<Tree<V>>, b: seq<Tree<V>>)
    ensures BfsFrom(a + b) == Roots(a) + BfsFrom(b + NextLevel(a))
    decreases |a|
  {
    if |a| == 0 {
      assert a + b == b;
      assert b + NextLevel(a) == b;
    } else if a[0].Empty? {
      BfsPrefix(a[1..], b);
      ConcatTail(a, b);
    } else {
      BfsPrefix(a[1..], b + Kids(a[0]));
      BfsPrefixStep(a, b);
    }
  }

  /** The step of `BfsPrefix`: pop a node from the front of `a`. */
  lemma BfsPrefixStep<V>(a: seq<Tree<V>>, b: seq<Tree<V>>)
    requires |a| > 0 && a[0].Branch?
    requires BfsFrom(a[1..] + (b + Kids(a[0]))) == Roots(a[1..]) + BfsFrom(b + Kids(a[0]) + NextLevel(a[1..]))
    ensures BfsFrom(a + b) == Roots(a) + BfsFrom(b + NextLevel(a))
  {
    var x := a[0];
    var ab := a + b;
    ConcatTail(a, b);
    ConcatAssoc(a[1..], b, Kids(x));
    assert BfsFrom(ab) == [EntryOf(x)] + BfsFrom(ab[1..] + Kids(x));
    var k, n := Kids(x), NextLevel(a[1..]);
    assert NextLevel(a) == k + n;
    ConcatAssoc(b, k, n);
    var e, r := [EntryOf(x)], Roots(a[1..]);
    assert Roots(a) == e + r;
    var rest := BfsFrom(b + NextLevel(a));
    assert BfsFrom(ab) == e + (r + rest);
    ConcatAssoc(e, r, rest);
  }

  /** `bfs` yields the tree level by level, each level left to right. */
  lemma {:induction false} BfsIsLevelByLevel<V>(q: seq<Tree<V>>)
    ensures BfsFrom(q) == Levels(q)
    decreases SizeAll(q)
  {
    if SizeAll(q) == 0 {
      EmptyQueue(q);
    } else {
      BfsPrefix(q, []);
      assert q + [] == q;
      assert [] + NextLevel(q) == NextLevel(q);
      NextLevelSize(q);
      NonEmptyRoots(q);
      BfsIsLevelByLevel(NextLevel(q));
    }
  }

  /** The entries of every subtree in a queue. */
  ghost function EntriesAll<V>(q: seq<Tree<V>>): multiset<Entry<V>> {
    if |q| == 0 then multiset{} else Entries(q[0]) + EntriesAll(q[1..])
  }

  lemma {:induction false} EntriesAllConcat<V>(a: seq<Tree<V>>, b: seq<Tree<V>>)
    ensures EntriesAll(a + b) == EntriesAll(a) + EntriesAll(b)
  {
    if |a| == 0 {
      assert a + b == b;
    } else {
      var ab := a + b;
      assert ab[0] == a[0];
      assert ab[1..] == a[1..] + b;
      EntriesAllConcat(a[1..], b);
    }
  }

  lemma KidsEntries<V>(t: Tree<V>)
    requires t.Branch?
    ensures EntriesAll(Kids(t)) + multiset{EntryOf(t)} == Entries(t)
  {
    EntriesAllConcat(Present(t.left), Present(t.right));
    PresentEntries(t.left);
    PresentEntries(t.right);
  }

  lemma PresentEntries<V>(s: Tree<V>)
    ensures EntriesAll(Present(s)) == Entries(s)
  {
    if s.Branch? {
      assert Present(s)[1..] == [];
    }
  }

  /** The queue run yields every node of every queued subtree exactly once. */
  lemma {:induction false} BfsFromVisitsEveryNode<V>(q: seq<Tree<V>>)
    ensures multiset(BfsFrom(q)) == EntriesAll(q)
    decreases SizeAll(q), |q|
  {
    if |q| > 0 {
      if q[0].Empty? {
        BfsFromVisitsEveryNode(q[1..]);
      } else {
        var next := q[1..] + Kids(q[0]);
        SizeAllConcat(q[1..], Kids(q[0]));
        KidsSize(q[0]);
        BfsFromVisitsEveryNode(next);
        EntriesAllConcat(q[1..], Kids(q[0]));
        KidsEntries(q[0]);
      }
    }
  }

  /** `bfs` yields every node exactly once, like the other traversals. */
  lemma LevelOrderVisitsEveryNode<V>(t: Tree<V>)
    ensures multiset(LevelOrder(t)) == Entries(t)
    ensures |LevelOrder(t)| == Size(t)
  {
    if t.Branch? {
      BfsFromVisitsEveryNode([t]);
      assert EntriesAll([t]) == Entries(t) + EntriesAll([]);
      assert SizeAll([t]) == Size(t) + SizeAll([t][1..]);
    }
  }

  /** `bfs` starts at the root, then yields the next levels with left children before right ones. */
  lemma LevelOrderStartsAtRoot<V>(t: Tree<V>)
    requires t.Branch?
    ensures LevelOrder(t) == [EntryOf(t)] + Levels(Kids(t))
  {
    BfsPrefix([t], []);
    assert [t] + [] == [t];
    assert Roots([t]) == [EntryOf(t)] + Roots([]);
    assert NextLevel([t]) == Kids(t) + NextLevel([]);
    assert Kids(t) + [] == Kids(t);
    assert [] + Kids(t) == Kids(t);
    BfsIsLevelByLevel(Kids(t));
  }
}
