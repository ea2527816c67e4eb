/**
 * `insert` of models/avl.py (identical in models/tree.py) on tree values,
 * with the AVL invariant it restores.
 */
module AvlInsert {
  import opened Nodes
  import opened AvlSpec

  /**
   * What an insertion of key `k` that made a subtree taller leaves at its
   * root: a new leaf, or a root leaning toward the side `k` went to.
   */
  ghost predicate LeansToward<V>(t: Tree<V>, k: Coord, key: V -> Coord) {
    t.Branch? &&
    (Height(t) == 1 ||
     (Below(k, key(t.value)) && Balance(t) == 1) ||
     (Below(key(t.value), k) && Balance(t) == -1))
  }

  /**
   * The state of a node on the insertion path after its child was
   * replaced and its height recomputed: children AVL, order intact, and a
   * balance of at most two toward the side the new key went to.
   */
  ghost predicate InsertPending<V>(t: Tree<V>, v: V, key: V -> Coord) {
    t.Branch? &&
    t.height == 1 + Max(Height(t.left), Height(t.right)) &&
    IsAvl(t.left, key) && IsAvl(t.right, key) && Ordered(t, key) &&
    -2 <= Balance(t) <= 2 &&
    (Balance(t) == 2 ==> LeansToward(t.left, key(v), key)) &&
    (Balance(t) == -2 ==> LeansToward(t.right, key(v), key))
  }

  /**
   * The four rotation cases at the end of `insert`, tried in the source's
   * order (LL, RR, LR, RL); the case is chosen by comparing the inserted
   * value with the heavy child's value.
   */
  function RebalanceInsert<V>(t: Tree<V>, v: V, key: V -> Coord): (r: Tree<V>)
    requires InsertPending(t, v, key)
    ensures IsAvl(r, key)
    ensures Keys(r, key) == Keys(t, key) && Inorder(r) == Inorder(t)
    ensures -1 <= Balance(t) <= 1 ==> r == t
    ensures Balance(t) < -1 || 1 < Balance(t) ==> Height(r) == Height(t) - 1
  {
    var b := Balance(t);
    if b > 1 && Compare(key(v), key(t.left.value)) < 0 then
      RotateRightRebalances(t, key);
      RotateRightKeepsOrder(t, key);
      RotateRight(t)
    else if b < -1 && Compare(key(v), key(t.right.value)) > 0 then
      RotateLeftRebalances(t, key);
      RotateLeftKeepsOrder(t, key);
      RotateLeft(t)
    else if b > 1 && Compare(key(v), key(t.left.value)) > 0 then
      RotateLeftRightRebalances(t, key);
      RotateRight(t.(left := RotateLeft(t.left)))
    else if b < -1 && Compare(key(v), key(t.right.value)) < 0 then
      RotateRightLeftRebalances(t, key);
      RotateLeft(t.(right := RotateRight(t.right)))
    else
      t
  }

  /**
   * `insert(root, value, tipo)`: descend by `compare`, add a leaf where the
   * search falls off the tree, ignore a value whose key is already present,
   * and on the way back recompute heights and rebalance.
   *
   * The source calls `left_rotate(root.left)` in the LR case and
   * `right_rotate(root.right)` in the RL case without checking that the
   * grandchild exists; it does on an AVL tree, which is what the source's
   * callers always pass.
   */
  function Insert<V>(t: Tree<V>, v: V, tipo: string, key: V -> Coord): (r: Tree<V>)
    requires IsAvl(t, key)
    ensures IsAvl(r, key)
    ensures Keys(r, key) == Keys(t, key) + {key(v)}
    ensures Height(t) <= Height(r) <= Height(t) + 1
    ensures Height(r) == Height(t) + 1 ==> LeansToward(r, key(v), key)
    decreases t
  {
    if t.Empty? then
      Leaf(v, tipo)
    else
      var c := Compare(key(v), key(t.value));
      if c < 0 then
        var l := Insert(t.left, v, tipo, key);
        InsertedLeft(t, l, v, key);
        RebalanceInsert(Fix(t.(left := l)), v, key)
      else if c > 0 then
        var r := Insert(t.right, v, tipo, key);
        InsertedRight(t, r, v, key);
        RebalanceInsert(Fix(t.(right := r)), v, key)
      else
        t
  }

  /** Insert's step at a node whose left subtree received the new key. */
  lemma InsertedLeft<V>(t: Tree<V>, l: Tree<V>, v: V, key: V -> Coord)
    requires IsAvl(t, key) && t.Branch? && Below(key(v), key(t.value))
    requires IsAvl(l, key) && Keys(l, key) == Keys(t.left, key) + {key(v)}
    requires Height(t.left) <= Height(l) <= Height(t.left) + 1
    requires Height(l) == Height(t.left) + 1 ==> LeansToward(l, key(v), key)
    ensures InsertPending(Fix(t.(left := l)), v, key)
    ensures var r := RebalanceInsert(Fix(t.(left := l)), v, key);
      Keys(r, key) == Keys(t, key) + {key(v)} &&
      Height(t) <= Height(r) <= Height(t) + 1 &&
      (Height(r) == Height(t) + 1 ==> LeansToward(r, key(v), key))
  {
    var t1 := Fix(t.(left := l));
    assert Keys(t1, key) == Keys(t, key) + {key(v)};
    assert Ordered(t1, key);
  }

  /** Insert's step at a node whose right subtree received the new key. */
  lemma InsertedRight<V>(t: Tree<V>, r: Tree<V>, v: V, key: V -> Coord)
    requires IsAvl(t, key) && t.Branch? && Below(key(t.value), key(v))
    requires IsAvl(r, key) && Keys(r, key) == Keys(t.right, key) + {key(v)}
    requires Height(t.right) <= Height(r) <= Height(t.right) + 1
    requires Height(r) == Height(t.right) + 1 ==> LeansToward(r, key(v), key)
    ensures InsertPending(Fix(t.(right := r)), v, key)
    ensures var r' := RebalanceInsert(Fix(t.(right := r)), v, key);
      Keys(r', key) == Keys(t, key) + {key(v)} &&
      Height(t) <= Height(r') <= Height(t) + 1 &&
      (Height(r') == Height(t) + 1 ==> LeansToward(r', key(v), key))
  {
    var t1 := Fix(t.(right := r));
    assert Keys(t1, key) == Keys(t, key) + {key(v)};
    assert Ordered(t1, key);
  }

  /** Inserting a value whose key is already present returns the same tree: nothing is added or overwritten. */
  lemma {:induction false} InsertPresent<V>(t: Tree<V>, v: V, tipo: string, key: V -> Coord)
    requires IsAvl(t, key) && key(v) in Keys(t, key)
    ensures Insert(t, v, tipo, key) == t
    decreases t
  {
    var c := Compare(key(v), key(t.value));
    if c < 0 {
      assert key(v) in Keys(t.left, key);
      InsertPresent(t.left, v, tipo, key);
      assert Fix(t.(left := t.left)) == t;
    } else if c > 0 {
      assert key(v) in Keys(t.right, key);
      InsertPresent(t.right, v, tipo, key);
      assert Fix(t.(right := t.right)) == t;
    }
  }

  /** Inserting a value whose key is absent adds exactly one entry, the value with its label. */
  lemma {:induction false} InsertAdds<V>(t: Tree<V>, v: V, tipo: string, key: V -> Coord)
    requires IsAvl(t, key) && key(v) !in Keys(t, key)
    ensures multiset(Inorder(Insert(t, v, tipo, key))) == multiset(Inorder(t)) + multiset{Entry(v, tipo)}
    decreases t
  {
    if t.Branch? {
      var c := Compare(key(v), key(t.value));
      if c < 0 {
        InsertAdds(t.left, v, tipo, key);
        InsertAddsLeft(t, v, tipo, key);
      } else {
        assert c != 0;
        InsertAdds(t.right, v, tipo, key);
        InsertAddsRight(t, v, tipo, key);
      }
    }
  }

  /** The step of `InsertAdds` when the value goes into the left subtree. */
  lemma InsertAddsLeft<V>(t: Tree<V>, v: V, tipo: string, key: V -> Coord)
    requires IsAvl(t, key) && t.Branch? && Below(key(v), key(t.value))
    requires multiset(Inorder(Insert(t.left, v, tipo, key))) == multiset(Inorder(t.left)) + multiset{Entry(v, tipo)}
    ensures multiset(Inorder(Insert(t, v, tipo, key))) == multiset(Inorder(t)) + multiset{Entry(v, tipo)}
  {
    var l := Insert(t.left, v, tipo, key);
    InsertedLeft(t, l, v, key);
    var t1 := Fix(t.(left := l));
    assert Inorder(Insert(t, v, tipo, key)) == Inorder(t1);
    ReplacedChildMultiset(t, t1, Entry(v, tipo));
  }

  /** The step of `InsertAdds` when the value goes into the right subtree. */
  lemma InsertAddsRight<V>(t: Tree<V>, v: V, tipo: string, key: V -> Coord)
    requires IsAvl(t, key) && t.Branch? && Below(key(t.value), key(v))
    requires multiset(Inorder(Insert(t.right, v, tipo, key))) == multiset(Inorder(t.right)) + multiset{Entry(v, tipo)}
    ensures multiset(Inorder(Insert(t, v, tipo, key))) == multiset(Inorder(t)) + multiset{Entry(v, tipo)}
  {
    var r := Insert(t.right, v, tipo, key);
    InsertedRight(t, r, v, key);
    var t1 := Fix(t.(right := r));
    assert Inorder(Insert(t, v, tipo, key)) == Inorder(t1);
    ReplacedChildMultiset(t, t1, Entry(v, tipo));
  }

  /**
   * A node whose entry is kept and one of whose subtrees gained entry `e`
   * has gained `e`.
   */
  lemma ReplacedChildMultiset<V>(t: Tree<V>, t1: Tree<V>, e: Entry<V>)
    requires t.Branch? && t1.Branch? && EntryOf(t1) == EntryOf(t)
    requires (t1.right == t.right && multiset(Inorder(t1.left)) == multiset(Inorder(t.left)) + multiset{e}) ||
             (t1.left == t.left && multiset(Inorder(t1.right)) == multiset(Inorder(t.right)) + multiset{e})
    ensures multiset(Inorder(t1)) == multiset(Inorder(t)) + multiset{e}
  {
    InorderMultiset(t);
    InorderMultiset(t1);
  }

  /** The entries of a node, as a multiset, are its subtrees' entries and its own. */
  lemma InorderMultiset<V>(t: Tree<V>)
    requires t.Branch?
    ensures multiset(Inorder(t)) == multiset(Inorder(t.left)) + multiset{EntryOf(t)} + multiset(Inorder(t.right))
  {
    assert Inorder(t) == Inorder(t.left) + [EntryOf(t)] + Inorder(t.right);
  }
}
