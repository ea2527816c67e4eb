/**
 * `get_min` and `delete` of models/avl.py on tree values, with the AVL
 * invariant they keep and the entries they leave.
 */
module AvlDelete {
  import opened Wrappers
  import opened Nodes
  import opened AvlSpec

  // ---- get_min ----

  /** `get_min(node)`: follow left children until there is none. */
  function Leftmost<V>(t: Tree<V>): (m: Tree<V>)
    requires t.Branch?
    ensures m.Branch? && m.left.Empty?
    ensures SubtreeOf(m, t)
    decreases t
  {
    if t.left.Empty? then t else Leftmost(t.left)
  }

  /** The node `get_min` returns holds the smallest key of an ordered tree. */
  lemma {:induction false} LeftmostIsMinimum<V>(t: Tree<V>, key: V -> Coord)
    requires t.Branch? && Ordered(t, key)
    ensures key(Leftmost(t).value) in Keys(t, key)
    ensures forall k :: k in Keys(t, key) ==> k == key(Leftmost(t).value) || Below(key(Leftmost(t).value), k)
    decreases t
  {
    if t.left.Branch? {
      LeftmostIsMinimum(t.left, key);
      var km := key(Leftmost(t.left).value);
      forall k | k in Keys(t, key)
        ensures k == km || Below(km, k)
      {
        if k !in Keys(t.left, key) {
          BelowIsStrictTotalOrder(km, key(t.value), k);
        }
      }
    }
  }

  /**
   * `get_min(node)` as the source runs it: walk down left children while
   * there is one. The node it stops at is `Leftmost(node)`, the first node
   * in order.
   */
  method GetMin<V>(node: Tree<V>) returns (m: Tree<V>)
    requires node.Branch?
    ensures m == Leftmost(node)
    ensures m.Branch? && m.left.Empty?
    ensures EntryOf(m) == Inorder(node)[0]
  {
    var current := node;
    while current.left.Branch?
      invariant current.Branch? && Leftmost(current) == Leftmost(node)
      invariant |Inorder(current)| > 0 && Inorder(current)[0] == Inorder(node)[0]
      decreases current
    {
      current := current.left;
    }
    m := current;
  }

  // ---- Entries without one key ----

  /** The entries of `s` whose key is not `k`, in their order. */
  function Without<V>(s: seq<Entry<V>>, k: Coord, key: V -> Coord): (r: seq<Entry<V>>)
    ensures |r| <= |s|
  {
    if |s| == 0 then []
    else (if key(s[0].value) == k then [] else [s[0]]) + Without(s[1..], k, key)
  }

  /** Membership in `Without`: exactly the entries of `s` with another key. */
  lemma {:induction false} WithoutMembers<V>(s: seq<Entry<V>>, k: Coord, key: V -> Coord)
    ensures forall e :: e in Without(s, k, key) <==> e in s && key(e.value) != k
  {
    if |s| > 0 {
      WithoutMembers(s[1..], k, key);
      assert s == [s[0]] + s[1..];
    }
  }

  /** `Without` distributes over concatenation. */
  lemma {:induction false} WithoutConcat<V>(a: seq<Entry<V>>, b: seq<Entry<V>>, k: Coord, key: V -> Coord)
    ensures Without(a + b, k, key) == Without(a, k, key) + Without(b, k, key)
  {
    if |a| > 0 {
      WithoutConcat(a[1..], b, k, key);
      assert (a + b)[1..] == a[1..] + b;
    } else {
      assert a + b == b;
    }
  }

  /** Removing a key no entry has changes nothing. */
  lemma {:induction false} WithoutAbsent<V>(s: seq<Entry<V>>, k: Coord, key: V -> Coord)
    requires forall e :: e in s ==> key(e.value) != k
    ensures Without(s, k, key) == s
  {
    if |s| > 0 {
      assert s[0] in s;
      assert forall e :: e in s[1..] ==> e in s;
      WithoutAbsent(s[1..], k, key);
      assert s == [s[0]] + s[1..];
    }
  }

  /** A single entry is dropped exactly when it has the key. */
  lemma WithoutSingleton<V>(e: Entry<V>, k: Coord, key: V -> Coord)
    ensures Without([e], k, key) == if key(e.value) == k then [] else [e]
  {
    assert [e][1..] == [];
  }

  /** The in-order entries of a node split at the node, without key `k`. */
  lemma WithoutNode<V>(t: Tree<V>, k: Coord, key: V -> Coord)
    requires t.Branch?
    ensures Without(Inorder(t), k, key) ==
      Without(Inorder(t.left), k, key) + Without([EntryOf(t)], k, key) + Without(Inorder(t.right), k, key)
  {
    WithoutConcat(Inorder(t.left) + [EntryOf(t)], Inorder(t.right), k, key);
    WithoutConcat(Inorder(t.left), [EntryOf(t)], k, key);
  }

  /** An ordered tree's in-order entries with no entry of key `k`, when `k` is not stored. */
  lemma InorderWithoutAbsent<V>(t: Tree<V>, k: Coord, key: V -> Coord)
    requires Ordered(t, key) && k !in Keys(t, key)
    ensures Without(Inorder(t), k, key) == Inorder(t)
  {
    InorderSorted(t, key);
    WithoutAbsent(Inorder(t), k, key);
  }

  /** In-order, the leftmost node comes first and the rest is everything else. */
  lemma {:induction false} LeftmostFirst<V>(t: Tree<V>, key: V -> Coord)
    requires t.Branch? && Ordered(t, key)
    ensures Inorder(t) == [EntryOf(Leftmost(t))] + Without(Inorder(t), key(Leftmost(t).value), key)
    decreases t
  {
    if t.left.Empty? {
      var k := key(t.value);
      WithoutNode(t, k, key);
      assert k !in Keys(t.right, key) by {
        BelowIsStrictTotalOrder(k, k, k);
      }
      InorderWithoutAbsent(t.right, k, key);
      assert Without([EntryOf(t)], k, key) == [];
    } else {
      LeftmostFirst(t.left, key);
      LeftmostFirstStep(t, key);
    }
  }

  /** The step of `LeftmostFirst` at a node with a left child. */
  lemma LeftmostFirstStep<V>(t: Tree<V>, key: V -> Coord)
    requires t.Branch? && t.left.Branch? && Ordered(t, key)
    requires Inorder(t.left) == [EntryOf(Leftmost(t.left))] + Without(Inorder(t.left), key(Leftmost(t.left).value), key)
    ensures Inorder(t) == [EntryOf(Leftmost(t))] + Without(Inorder(t), key(Leftmost(t).value), key)
  {
    var m := Leftmost(t.left);
    var km := key(m.value);
    assert Leftmost(t) == m;
    LeftmostIsMinimum(t.left, key);
    BelowRightKeys(t, km, key);
    InorderWithoutAbsent(t.right, km, key);
    assert key(t.value) != km;
    WithoutNodeKept(t, km, key);
  }

  /**
   * Without key `k`, a node whose own key differs and whose right subtree
   * lacks `k` keeps its entry and its right subtree.
   */
  lemma WithoutNodeKept<V>(t: Tree<V>, k: Coord, key: V -> Coord)
    requires t.Branch? && key(t.value) != k
    requires Without(Inorder(t.right), k, key) == Inorder(t.right)
    ensures Without(Inorder(t), k, key) == Without(Inorder(t.left), k, key) + [EntryOf(t)] + Inorder(t.right)
  {
    WithoutNode(t, k, key);
    WithoutSingleton(EntryOf(t), k, key);
  }

  /** A key above the node's key of an ordered tree is not stored left of it. */
  lemma AboveLeftKeys<V>(t: Tree<V>, k: Coord, key: V -> Coord)
    requires t.Branch? && Ordered(t, key) && Below(key(t.value), k)
    ensures k !in Keys(t.left, key)
  {
    forall k' | k' in Keys(t.left, key) ensures k' != k {
      BelowIsStrictTotalOrder(k', key(t.value), k);
    }
  }

  /** A key below the node's key of an ordered tree is not stored right of it. */
  lemma BelowRightKeys<V>(t: Tree<V>, k: Coord, key: V -> Coord)
    requires t.Branch? && Ordered(t, key) && Below(k, key(t.value))
    ensures k !in Keys(t.right, key)
  {
    forall k' | k' in Keys(t.right, key) ensures k' != k {
      BelowIsStrictTotalOrder(k, key(t.value), k');
    }
  }

  // ---- Rebalancing after a deletion ----

  /**
   * The four rotation cases at the end of `delete`, tried in the source's
   * order; the case is chosen by the sign of the heavy child's balance.
   */
  function RebalanceDelete<V>(t: Tree<V>): (r: Tree<V>)
    requires t.Branch?
    ensures Inorder(r) == Inorder(t)
  {
    var b := Balance(t);
    if b > 1 && Balance(t.left) >= 0 then
      RotateRightInorder(t);
      RotateRight(t)
    else if b > 1 && Balance(t.left) < 0 then
      var z1 := t.(left := RotateLeft(t.left));
      RotateLeftInorder(t.left);
      RotateRightInorder(z1);
      RotateRight(z1)
    else if b < -1 && Balance(t.right) <= 0 then
      RotateLeftInorder(t);
      RotateLeft(t)
    else if b < -1 && Balance(t.right) > 0 then
      var z1 := t.(right := RotateRight(t.right));
      RotateRightInorder(t.right);
      RotateLeftInorder(z1);
      RotateLeft(z1)
    else
      t
  }

  /**
   * A node whose children are AVL and differ in height by at most two is
   * AVL after `RebalanceDelete`, with the same keys, untouched if it was
   * already balanced, and at most one level lower.
   */
  lemma RebalanceDeleteAvl<V>(t: Tree<V>, key: V -> Coord)
    requires t.Branch? && t.height == 1 + Max(Height(t.left), Height(t.right))
    requires IsAvl(t.left, key) && IsAvl(t.right, key) && Ordered(t, key)
    requires -2 <= Balance(t) <= 2
    ensures IsAvl(RebalanceDelete(t), key)
    ensures Keys(RebalanceDelete(t), key) == Keys(t, key)
    ensures -1 <= Balance(t) <= 1 ==> RebalanceDelete(t) == t
    ensures Height(t) - 1 <= Height(RebalanceDelete(t)) <= Height(t)
  {
    var b := Balance(t);
    if b > 1 && Balance(t.left) >= 0 {
      RotateRightRebalances(t, key);
      RotateRightKeepsOrder(t, key);
    } else if b > 1 {
      RotateLeftRightRebalances(t, key);
    } else if b < -1 && Balance(t.right) <= 0 {
      RotateLeftRebalances(t, key);
      RotateLeftKeepsOrder(t, key);
    } else if b < -1 {
      RotateRightLeftRebalances(t, key);
    }
  }

  // ---- delete ----

  /**
   * `delete(root, value)`: descend by `compare`; at the node with the same
   * key, return the other child when one child is missing, and otherwise
   * copy in the value of the right subtree's minimum and delete that one
   * from the right subtree; on the way back recompute heights and
   * rebalance. A missing key leaves the tree as it was.
   *
   * In the two-children case the source writes the successor's label to a
   * new attribute `type` and leaves `tipo` as it was, so the node keeps
   * the deleted entry's label: that is `relabel == false`, the code as
   * written. `relabel == true` carries the successor's label along.
   */
  function Delete<V>(t: Tree<V>, v: V, key: V -> Coord, relabel: bool): Tree<V>
    decreases t
  {
    if t.Empty? then t
    else
      var c := Compare(key(v), key(t.value));
      if c < 0 then
        RebalanceDelete(Fix(t.(left := Delete(t.left, v, key, relabel))))
      else if c > 0 then
        RebalanceDelete(Fix(t.(right := Delete(t.right, v, key, relabel))))
      else if t.left.Empty? then
        t.right
      else if t.right.Empty? then
        t.left
      else
        var m := Leftmost(t.right);
        RebalanceDelete(Fix(TakeSuccessor(t, m, Delete(t.right, m.value, key, relabel), relabel)))
  }

  /**
   * The two-children case's copy of the successor `m` into node `t`: the
   * value always; the label into the attribute `type` as written
   * (`relabel == false`), into `tipo` when corrected (`relabel == true`).
   */
  function TakeSuccessor<V>(t: Tree<V>, m: Tree<V>, rr: Tree<V>, relabel: bool): (r: Tree<V>)
    requires t.Branch? && m.Branch?
    ensures r.Branch? && r.left == t.left && r.right == rr && r.height == t.height
    ensures r.value == m.value
    ensures relabel ==> r.tipo == m.tipo && r.typeAttr == t.typeAttr
    ensures !relabel ==> r.tipo == t.tipo && r.typeAttr == Some(m.tipo)
  {
    if relabel then t.(value := m.value, tipo := m.tipo, right := rr)
    else t.(value := m.value, typeAttr := Some(m.tipo), right := rr)
  }

  /**
   * Deleting from an AVL tree leaves an AVL tree without the key of the
   * deleted value, at most one level lower.
   */
  lemma {:induction false} DeleteCorrect<V>(t: Tree<V>, v: V, key: V -> Coord, relabel: bool)
    requires IsAvl(t, key)
    ensures IsAvl(Delete(t, v, key, relabel), key)
    ensures Keys(Delete(t, v, key, relabel), key) == Keys(t, key) - {key(v)}
    ensures Height(t) - 1 <= Height(Delete(t, v, key, relabel)) <= Height(t)
    decreases t
  {
    if t.Branch? {
      var c := Compare(key(v), key(t.value));
      if c < 0 {
        var l := Delete(t.left, v, key, relabel);
        DeleteCorrect(t.left, v, key, relabel);
        DeletedLeft(t, l, key(v), key);
      } else if c > 0 {
        var r := Delete(t.right, v, key, relabel);
        DeleteCorrect(t.right, v, key, relabel);
        DeletedRight(t, r, key(v), key);
      } else if t.left.Empty? || t.right.Empty? {
        DeletedOneChild(t, key);
      } else {
        var m := Leftmost(t.right);
        var rr := Delete(t.right, m.value, key, relabel);
        DeleteCorrect(t.right, m.value, key, relabel);
        LeftmostIsMinimum(t.right, key);
        DeletedRoot(t, TakeSuccessor(t, m, rr, relabel), key);
      }
    }
  }

  /** The step of `DeleteCorrect` when key `k` lies left of the node and `l` is the left subtree without it. */
  lemma DeletedLeft<V>(t: Tree<V>, l: Tree<V>, k: Coord, key: V -> Coord)
    requires IsAvl(t, key) && t.Branch? && Below(k, key(t.value))
    requires IsAvl(l, key) && Keys(l, key) == Keys(t.left, key) - {k}
    requires Height(t.left) - 1 <= Height(l) <= Height(t.left)
    ensures var r := RebalanceDelete(Fix(t.(left := l)));
      IsAvl(r, key) && Keys(r, key) == Keys(t, key) - {k} && Height(t) - 1 <= Height(r) <= Height(t)
  {
    ShrunkLeft(t, l, k, key);
    RebalanceDeleteAvl(Fix(t.(left := l)), key);
  }

  /** Replacing the left subtree by one without key `k` keeps the order and drops `k`. */
  lemma ShrunkLeft<V>(t: Tree<V>, l: Tree<V>, k: Coord, key: V -> Coord)
    requires t.Branch? && Ordered(t, key) && Below(k, key(t.value))
    requires Ordered(l, key) && Keys(l, key) == Keys(t.left, key) - {k}
    ensures Ordered(Fix(t.(left := l)), key)
    ensures Keys(Fix(t.(left := l)), key) == Keys(t, key) - {k}
  {
    BelowRightKeys(t, k, key);
  }

  /** The step of `DeleteCorrect` when key `k` lies right of the node and `r` is the right subtree without it. */
  lemma DeletedRight<V>(t: Tree<V>, r: Tree<V>, k: Coord, key: V -> Coord)
    requires IsAvl(t, key) && t.Branch? && Below(key(t.value), k)
    requires IsAvl(r, key) && Keys(r, key) == Keys(t.right, key) - {k}
    requires Height(t.right) - 1 <= Height(r) <= Height(t.right)
    ensures var r' := RebalanceDelete(Fix(t.(right := r)));
      IsAvl(r', key) && Keys(r', key) == Keys(t, key) - {k} && Height(t) - 1 <= Height(r') <= Height(t)
  {
    ShrunkRight(t, r, k, key);
    RebalanceDeleteAvl(Fix(t.(right := r)), key);
  }

  /** Replacing the right subtree by one without key `k` keeps the order and drops `k`. */
  lemma ShrunkRight<V>(t: Tree<V>, r: Tree<V>, k: Coord, key: V -> Coord)
    requires t.Branch? && Ordered(t, key) && Below(key(t.value), k)
    requires Ordered(r, key) && Keys(r, key) == Keys(t.right, key) - {k}
    ensures Ordered(Fix(t.(right := r)), key)
    ensures Keys(Fix(t.(right := r)), key) == Keys(t, key) - {k}
  {
    AboveLeftKeys(t, k, key);
  }

  /** The step of `DeleteCorrect` at the key's node when a child is missing: the other child replaces it. */
  lemma DeletedOneChild<V>(t: Tree<V>, key: V -> Coord)
    requires IsAvl(t, key) && t.Branch? && (t.left.Empty? || t.right.Empty?)
    ensures var r := if t.left.Empty? then t.right else t.left;
      IsAvl(r, key) && Keys(r, key) == Keys(t, key) - {key(t.value)} && Height(t) - 1 <= Height(r) <= Height(t)
  {
    var k := key(t.value);
    assert k !in Keys(t.left, key) && k !in Keys(t.right, key) by {
      BelowIsStrictTotalOrder(k, k, k);
    }
  }

  /**
   * The step of `DeleteCorrect` at the key's node when it has two
   * children: the node takes the value `w` of the right subtree's minimum
   * and `rr` is the right subtree without `w`.
   */
  lemma DeletedRoot<V>(t: Tree<V>, s: Tree<V>, key: V -> Coord)
    requires IsAvl(t, key) && t.Branch? && t.left.Branch?
    requires s.Branch? && s.left == t.left && s.height == t.height
    requires key(s.value) in Keys(t.right, key)
    requires forall k :: k in Keys(t.right, key) ==> k == key(s.value) || Below(key(s.value), k)
    requires IsAvl(s.right, key) && Keys(s.right, key) == Keys(t.right, key) - {key(s.value)}
    requires Height(t.right) - 1 <= Height(s.right) <= Height(t.right)
    ensures var r := RebalanceDelete(Fix(s));
      IsAvl(r, key) && Keys(r, key) == Keys(t, key) - {key(t.value)} && Height(t) - 1 <= Height(r) <= Height(t)
  {
    SuccessorRoot(t, s, key);
    RebalanceDeleteAvl(Fix(s), key);
  }

  /** Before rebalancing: the node with the successor's entry is ordered and holds the other keys. */
  lemma SuccessorRoot<V>(t: Tree<V>, s: Tree<V>, key: V -> Coord)
    requires Ordered(t, key) && t.Branch?
    requires s.Branch? && s.left == t.left
    requires key(s.value) in Keys(t.right, key)
    requires forall k :: k in Keys(t.right, key) ==> k == key(s.value) || Below(key(s.value), k)
    requires Ordered(s.right, key) && Keys(s.right, key) == Keys(t.right, key) - {key(s.value)}
    ensures Ordered(Fix(s), key)
    ensures Keys(Fix(s), key) == Keys(t, key) - {key(t.value)}
  {
    var kw := key(s.value);
    assert Below(key(t.value), kw);
    forall k | k in Keys(t.left, key) ensures Below(k, kw) {
      BelowIsStrictTotalOrder(k, key(t.value), kw);
    }
    var k := key(t.value);
    assert k !in Keys(t.left, key) && k !in Keys(t.right, key) by {
      BelowIsStrictTotalOrder(k, k, k);
    }
  }

  /** Deleting a key that is not stored returns the same tree. */
  lemma {:induction false} DeleteAbsent<V>(t: Tree<V>, v: V, key: V -> Coord, relabel: bool)
    requires IsAvl(t, key) && key(v) !in Keys(t, key)
    ensures Delete(t, v, key, relabel) == t
    decreases t
  {
    if t.Branch? {
      var c := Compare(key(v), key(t.value));
      if c < 0 {
        DeleteAbsent(t.left, v, key, relabel);
        assert Fix(t.(left := t.left)) == t;
      } else {
        assert c != 0;
        DeleteAbsent(t.right, v, key, relabel);
        assert Fix(t.(right := t.right)) == t;
      }
    }
  }

  /**
   * With the successor's label carried along, deleting from an ordered
   * tree removes exactly the entry with the deleted key and keeps every
   * other entry, label included, in order.
   */
  lemma {:induction false} DeleteRemovesEntry<V>(t: Tree<V>, v: V, key: V -> Coord)
    requires Ordered(t, key)
    ensures Inorder(Delete(t, v, key, true)) == Without(Inorder(t), key(v), key)
    decreases t
  {
    if t.Branch? {
      var k := key(v);
      var c := Compare(k, key(t.value));
      if c < 0 {
        DeleteRemovesEntry(t.left, v, key);
        BelowRightKeys(t, k, key);
        InorderWithoutAbsent(t.right, k, key);
        WithoutNodeKept(t, k, key);
      } else if c > 0 {
        DeleteRemovesEntry(t.right, v, key);
        AboveLeftKeys(t, k, key);
        InorderWithoutAbsent(t.left, k, key);
        WithoutNodeKeptRight(t, k, key);
      } else {
        RemovedAtNode(t, key);
        if t.left.Branch? && t.right.Branch? {
          var m := Leftmost(t.right);
          DeleteRemovesEntry(t.right, m.value, key);
          RemovedSuccessor(t, v, key);
        }
      }
    }
  }

  /**
   * The step of `DeleteRemovesEntry` at the key's node when it has two
   * children: the successor's entry takes the node's place in order.
   */
  lemma RemovedSuccessor<V>(t: Tree<V>, v: V, key: V -> Coord)
    requires t.Branch? && t.left.Branch? && t.right.Branch? && Ordered(t, key) && key(v) == key(t.value)
    requires Inorder(Delete(t.right, Leftmost(t.right).value, key, true)) ==
             Without(Inorder(t.right), key(Leftmost(t.right).value), key)
    ensures Inorder(Delete(t, v, key, true)) == Inorder(t.left) + Inorder(t.right)
  {
    var m := Leftmost(t.right);
    DeleteTwoChildren(t, v, key, true);
    SuccessorInPlace(t, m, Delete(t.right, m.value, key, true), key);
  }

  /**
   * The node that took the successor's entry, with right subtree `rr`
   * holding the right subtree's other entries, lists the node's subtrees'
   * entries in order.
   */
  lemma SuccessorInPlace<V>(t: Tree<V>, m: Tree<V>, rr: Tree<V>, key: V -> Coord)
    requires t.Branch? && t.right.Branch? && Ordered(t.right, key) && m == Leftmost(t.right)
    requires Inorder(rr) == Without(Inorder(t.right), key(m.value), key)
    ensures Inorder(RebalanceDelete(Fix(TakeSuccessor(t, m, rr, true)))) == Inorder(t.left) + Inorder(t.right)
  {
    var s := TakeSuccessor(t, m, rr, true);
    ReplacedRightInorder(s);
    LeftmostFirst(t.right, key);
    var a, e, w := Inorder(t.left), EntryOf(m), Inorder(rr);
    assert a + [e] + w == a + ([e] + w);
  }

  /** At a node with the deleted key and two children, `Delete` is the successor copy, the deletion below, and a rebalance. */
  lemma DeleteTwoChildren<V>(t: Tree<V>, v: V, key: V -> Coord, relabel: bool)
    requires t.Branch? && t.left.Branch? && t.right.Branch? && key(v) == key(t.value)
    ensures var m := Leftmost(t.right);
      Delete(t, v, key, relabel) ==
      RebalanceDelete(Fix(TakeSuccessor(t, m, Delete(t.right, m.value, key, relabel), relabel)))
  {
  }

  /** Replacing the right subtree replaces the tail of the in-order entries. */
  lemma ReplacedRightInorder<V>(s: Tree<V>)
    requires s.Branch?
    ensures Inorder(Fix(s)) == Inorder(s.left) + [EntryOf(s)] + Inorder(s.right)
  {
  }

  /**
   * Without key `k`, a node whose own key differs and whose left subtree
   * lacks `k` keeps its left subtree and its entry.
   */
  lemma WithoutNodeKeptRight<V>(t: Tree<V>, k: Coord, key: V -> Coord)
    requires t.Branch? && key(t.value) != k
    requires Without(Inorder(t.left), k, key) == Inorder(t.left)
    ensures Without(Inorder(t), k, key) == Inorder(t.left) + [EntryOf(t)] + Without(Inorder(t.right), k, key)
  {
    WithoutNode(t, k, key);
    WithoutSingleton(EntryOf(t), k, key);
  }

  /** Without its own key, an ordered node's in-order entries are its subtrees' entries. */
  lemma RemovedAtNode<V>(t: Tree<V>, key: V -> Coord)
    requires t.Branch? && Ordered(t, key)
    ensures Without(Inorder(t), key(t.value), key) == Inorder(t.left) + Inorder(t.right)
  {
    var k := key(t.value);
    assert k !in Keys(t.left, key) && k !in Keys(t.right, key) by {
      BelowIsStrictTotalOrder(k, k, k);
    }
    InorderWithoutAbsent(t.left, k, key);
    InorderWithoutAbsent(t.right, k, key);
    WithoutNodeDropped(t, key);
  }

  /** Without its own key, a node whose subtrees lack that key leaves just their entries. */
  lemma WithoutNodeDropped<V>(t: Tree<V>, key: V -> Coord)
    requires t.Branch?
    requires Without(Inorder(t.left), key(t.value), key) == Inorder(t.left)
    requires Without(Inorder(t.right), key(t.value), key) == Inorder(t.right)
    ensures Without(Inorder(t), key(t.value), key) == Inorder(t.left) + Inorder(t.right)
  {
    var a, b := Inorder(t.left), Inorder(t.right);
    assert Inorder(t) == a + [EntryOf(t)] + b;
    WithoutDropMiddle(a, EntryOf(t), b, key(t.value), key);
  }

  /** Dropping the one entry with key `k` from the middle leaves the two sides. */
  lemma WithoutDropMiddle<V>(a: seq<Entry<V>>, e: Entry<V>, b: seq<Entry<V>>, k: Coord, key: V -> Coord)
    requires key(e.value) == k && Without(a, k, key) == a && Without(b, k, key) == b
    ensures Without(a + [e] + b, k, key) == a + b
  {
    WithoutConcat(a + [e], b, k, key);
    WithoutConcat(a, [e], k, key);
    WithoutSingleton(e, k, key);
    assert a + [] == a;
  }

  /**
   * The corrected deletion keeps exactly the entries of the other keys:
   * an entry is in the result if and only if it was in the tree with a
   * different key.
   */
  lemma DeleteRelabelMembers<V>(t: Tree<V>, v: V, key: V -> Coord, e: Entry<V>)
    requires Ordered(t, key)
    ensures e in Inorder(Delete(t, v, key, true)) <==> e in Inorder(t) && key(e.value) != key(v)
  {
    DeleteRemovesEntry(t, v, key);
    WithoutMembers(Inorder(t), key(v), key);
  }

  // ---- The label the code as written leaves behind ----

  /** An entry with its label replaced by `tipo` when its key is `k`. */
  function RelabelOne<V>(e: Entry<V>, k: Coord, tipo: string, key: V -> Coord): (r: Entry<V>)
    ensures r.value == e.value
    ensures r.tipo == if key(e.value) == k then tipo else e.tipo
  {
    if key(e.value) == k then Entry(e.value, tipo) else e
  }

  /** The entries of `s`, with the label of those whose key is `k` replaced by `tipo`. */
  function Relabel<V>(s: seq<Entry<V>>, k: Coord, tipo: string, key: V -> Coord): (r: seq<Entry<V>>)
    ensures |r| == |s|
  {
    if |s| == 0 then [] else [RelabelOne(s[0], k, tipo, key)] + Relabel(s[1..], k, tipo, key)
  }

  /** `Relabel` changes the label of exactly the entries with key `k`, in place. */
  lemma {:induction false} RelabelAt<V>(s: seq<Entry<V>>, k: Coord, tipo: string, key: V -> Coord, i: int)
    requires 0 <= i < |s|
    ensures Relabel(s, k, tipo, key)[i] == if key(s[i].value) == k then Entry(s[i].value, tipo) else s[i]
  {
    if i > 0 {
      RelabelAt(s[1..], k, tipo, key, i - 1);
    }
  }

  lemma {:induction false} RelabelConcat<V>(a: seq<Entry<V>>, b: seq<Entry<V>>, k: Coord, tipo: string, key: V -> Coord)
    ensures Relabel(a + b, k, tipo, key) == Relabel(a, k, tipo, key) + Relabel(b, k, tipo, key)
  {
    if |a| > 0 {
      RelabelConcat(a[1..], b, k, tipo, key);
      assert (a + b)[1..] == a[1..] + b;
      assert (a + b)[0] == a[0];
    } else {
      assert a + b == b;
    }
  }

  /** Relabelling a key no entry has changes nothing. */
  lemma {:induction false} RelabelAbsent<V>(s: seq<Entry<V>>, k: Coord, tipo: string, key: V -> Coord)
    requires forall e :: e in s ==> key(e.value) != k
    ensures Relabel(s, k, tipo, key) == s
  {
    if |s| > 0 {
      assert s[0] in s;
      assert forall e :: e in s[1..] ==> e in s;
      RelabelAbsent(s[1..], k, tipo, key);
      assert s == [s[0]] + s[1..];
    }
  }

  /**
   * The subtree whose root holds key `k`, reached the way `delete` and
   * `search` descend by `compare`; empty when `k` is not stored.
   */
  ghost function Subtree<V>(t: Tree<V>, k: Coord, key: V -> Coord): (n: Tree<V>)
    ensures n.Branch? ==> key(n.value) == k
    decreases t
  {
    if t.Empty? then t
    else
      var c := Compare(k, key(t.value));
      if c < 0 then Subtree(t.left, k, key)
      else if c > 0 then Subtree(t.right, k, key)
      else t
  }

  /** The subtree `delete` stops at is ordered and holds only keys of the tree. */
  lemma {:induction false} SubtreeWithin<V>(t: Tree<V>, k: Coord, key: V -> Coord)
    requires Ordered(t, key)
    ensures Ordered(Subtree(t, k, key), key)
    ensures Keys(Subtree(t, k, key), key) <= Keys(t, key)
    decreases t
  {
    if t.Branch? {
      var c := Compare(k, key(t.value));
      if c < 0 {
        SubtreeWithin(t.left, k, key);
      } else if c > 0 {
        SubtreeWithin(t.right, k, key);
      }
    }
  }

  /** Descending by the key of the leftmost node ends at the leftmost node. */
  lemma {:induction false} SubtreeOfLeftmost<V>(t: Tree<V>, key: V -> Coord)
    requires t.Branch? && Ordered(t, key)
    ensures Subtree(t, key(Leftmost(t).value), key) == Leftmost(t)
    decreases t
  {
    if t.left.Branch? {
      LeftmostIsMinimum(t.left, key);
      SubtreeOfLeftmost(t.left, key);
    } else {
      assert Compare(key(t.value), key(t.value)) == 0;
    }
  }

  /** The node `delete` reaches has two children, so the code copies a successor into it. */
  ghost predicate CopiesSuccessor<V>(t: Tree<V>, k: Coord, key: V -> Coord) {
    var n := Subtree(t, k, key);
    n.Branch? && n.left.Branch? && n.right.Branch?
  }

  /**
   * The in-order entries `delete` as written should leave, stated on the
   * old entries. When the deleted node has at most one child they are the
   * old entries without the deleted key, as in the corrected deletion.
   * When it has two children, the successor's value moves up but the node
   * keeps the deleted entry's label: the entries are those of the
   * corrected deletion with the successor's label replaced by the deleted
   * one.
   */
  ghost function AsWrittenInorder<V>(t: Tree<V>, k: Coord, key: V -> Coord): seq<Entry<V>> {
    var n := Subtree(t, k, key);
    if CopiesSuccessor(t, k, key)
    then Relabel(Without(Inorder(t), k, key), key(Leftmost(n.right).value), n.tipo, key)
    else Without(Inorder(t), k, key)
  }

  /** `delete` as written leaves `AsWrittenInorder` of the old tree. */
  lemma {:induction false} DeleteAsWritten<V>(t: Tree<V>, v: V, key: V -> Coord)
    requires Ordered(t, key)
    ensures Inorder(Delete(t, v, key, false)) == AsWrittenInorder(t, key(v), key)
    decreases t
  {
    if t.Branch? {
      var k := key(v);
      var c := Compare(k, key(t.value));
      if c < 0 {
        DeleteAsWritten(t.left, v, key);
        AsWrittenLeft(t, v, key);
      } else if c > 0 {
        DeleteAsWritten(t.right, v, key);
        AsWrittenRight(t, v, key);
      } else {
        RemovedAtNode(t, key);
        if t.left.Branch? && t.right.Branch? {
          var m := Leftmost(t.right);
          DeleteAsWritten(t.right, m.value, key);
          SubtreeOfLeftmost(t.right, key);
          StaleAtNode(t, v, key);
        }
      }
    }
  }

  /**
   * Compared with the corrected deletion, `delete` as written leaves the
   * same values in the same order and the same labels, except that the
   * successor's entry carries the deleted node's label, when that node had
   * two children.
   */
  lemma AsWrittenVsCorrected<V>(t: Tree<V>, v: V, key: V -> Coord)
    requires Ordered(t, key)
    ensures var n := Subtree(t, key(v), key);
      Inorder(Delete(t, v, key, false)) ==
        if CopiesSuccessor(t, key(v), key)
        then Relabel(Inorder(Delete(t, v, key, true)), key(Leftmost(n.right).value), n.tipo, key)
        else Inorder(Delete(t, v, key, true))
  {
    DeleteAsWritten(t, v, key);
    DeleteRemovesEntry(t, v, key);
  }

  /** The step of `DeleteAsWritten` when the key lies left of the node. */
  lemma AsWrittenLeft<V>(t: Tree<V>, v: V, key: V -> Coord)
    requires t.Branch? && Ordered(t, key) && Below(key(v), key(t.value))
    requires Inorder(Delete(t.left, v, key, false)) == AsWrittenInorder(t.left, key(v), key)
    ensures Inorder(Delete(t, v, key, false)) == AsWrittenInorder(t, key(v), key)
  {
    var k := key(v);
    assert Subtree(t, k, key) == Subtree(t.left, k, key);
    BelowRightKeys(t, k, key);
    InorderWithoutAbsent(t.right, k, key);
    WithoutNodeKept(t, k, key);
    if CopiesSuccessor(t, k, key) {
      StaleLeft(t, k, key);
    }
  }

  /** The step of `DeleteAsWritten` when the key lies right of the node. */
  lemma AsWrittenRight<V>(t: Tree<V>, v: V, key: V -> Coord)
    requires t.Branch? && Ordered(t, key) && Below(key(t.value), key(v))
    requires Inorder(Delete(t.right, v, key, false)) == AsWrittenInorder(t.right, key(v), key)
    ensures Inorder(Delete(t, v, key, false)) == AsWrittenInorder(t, key(v), key)
  {
    var k := key(v);
    assert Subtree(t, k, key) == Subtree(t.right, k, key);
    AboveLeftKeys(t, k, key);
    InorderWithoutAbsent(t.left, k, key);
    WithoutNodeKeptRight(t, k, key);
    if CopiesSuccessor(t, k, key) {
      StaleRight(t, k, key);
    }
  }

  /**
   * The step of `DeleteAsWritten` left of the node: relabelling the
   * successor's key, which lies in the left subtree, leaves the node and
   * the right subtree alone.
   */
  lemma StaleLeft<V>(t: Tree<V>, k: Coord, key: V -> Coord)
    requires t.Branch? && Ordered(t, key) && Below(k, key(t.value)) && CopiesSuccessor(t, k, key)
    ensures var n := Subtree(t, k, key);
      forall l :: Relabel(l + [EntryOf(t)] + Inorder(t.right), key(Leftmost(n.right).value), n.tipo, key) ==
                  Relabel(l, key(Leftmost(n.right).value), n.tipo, key) + [EntryOf(t)] + Inorder(t.right)
  {
    var n := Subtree(t.left, k, key);
    assert Subtree(t, k, key) == n;
    SubtreeWithin(t.left, k, key);
    LeftmostIsMinimum(n.right, key);
    var ks := key(Leftmost(n.right).value);
    assert ks in Keys(t.left, key);
    InorderSorted(t.right, key);
    forall e | e in [EntryOf(t)] + Inorder(t.right)
      ensures key(e.value) != ks
    {
      if e != EntryOf(t) {
        BelowIsStrictTotalOrder(ks, key(t.value), key(e.value));
      }
    }
    RelabelAbsent([EntryOf(t)] + Inorder(t.right), ks, n.tipo, key);
    forall l: seq<Entry<V>> ensures Relabel(l + [EntryOf(t)] + Inorder(t.right), ks, n.tipo, key) ==
                                    Relabel(l, ks, n.tipo, key) + [EntryOf(t)] + Inorder(t.right)
    {
      assert l + [EntryOf(t)] + Inorder(t.right) == l + ([EntryOf(t)] + Inorder(t.right));
      RelabelConcat(l, [EntryOf(t)] + Inorder(t.right), ks, n.tipo, key);
    }
  }

  /** The mirror step of `DeleteAsWritten` right of the node. */
  lemma StaleRight<V>(t: Tree<V>, k: Coord, key: V -> Coord)
    requires t.Branch? && Ordered(t, key) && Below(key(t.value), k) && CopiesSuccessor(t, k, key)
    ensures var n := Subtree(t, k, key);
      forall r :: Relabel(Inorder(t.left) + [EntryOf(t)] + r, key(Leftmost(n.right).value), n.tipo, key) ==
                  Inorder(t.left) + [EntryOf(t)] + Relabel(r, key(Leftmost(n.right).value), n.tipo, key)
  {
    var n := Subtree(t.right, k, key);
    assert Subtree(t, k, key) == n;
    SubtreeWithin(t.right, k, key);
    LeftmostIsMinimum(n.right, key);
    var ks := key(Leftmost(n.right).value);
    assert ks in Keys(t.right, key);
    InorderSorted(t.left, key);
    forall e | e in Inorder(t.left) + [EntryOf(t)]
      ensures key(e.value) != ks
    {
      if e != EntryOf(t) {
        BelowIsStrictTotalOrder(key(e.value), key(t.value), ks);
      }
    }
    RelabelAbsent(Inorder(t.left) + [EntryOf(t)], ks, n.tipo, key);
    forall r: seq<Entry<V>> ensures Relabel(Inorder(t.left) + [EntryOf(t)] + r, ks, n.tipo, key) ==
                                    Inorder(t.left) + [EntryOf(t)] + Relabel(r, ks, n.tipo, key)
    {
      RelabelConcat(Inorder(t.left) + [EntryOf(t)], r, ks, n.tipo, key);
    }
  }

  /**
   * The step of `DeleteAsWritten` at the deleted node with two children:
   * the successor's value takes the node's place in order, under the
   * node's own label.
   */
  lemma StaleAtNode<V>(t: Tree<V>, v: V, key: V -> Coord)
    requires t.Branch? && t.left.Branch? && t.right.Branch? && Ordered(t, key) && key(v) == key(t.value)
    requires Inorder(Delete(t.right, Leftmost(t.right).value, key, false)) ==
             Without(Inorder(t.right), key(Leftmost(t.right).value), key)
    ensures Inorder(Delete(t, v, key, false)) ==
            Relabel(Inorder(t.left) + Inorder(t.right), key(Leftmost(t.right).value), t.tipo, key)
  {
    var m := Leftmost(t.right);
    var km := key(m.value);
    var w := Without(Inorder(t.right), km, key);
    SuccessorUnderOldLabel(t, v, key);
    LeftmostFirst(t.right, key);
    LeftmostIsMinimum(t.right, key);
    InorderSorted(t.left, key);
    forall e | e in Inorder(t.left) ensures key(e.value) != km {
      BelowIsStrictTotalOrder(key(e.value), key(t.value), km);
    }
    WithoutMembers(Inorder(t.right), km, key);
    assert forall x :: x in w ==> key(x.value) != km;
    RelabelMiddle(Inorder(t.left), EntryOf(m), w, km, t.tipo, key);
  }

  /** As written, the node that took the successor's value lists it under the node's own label. */
  lemma SuccessorUnderOldLabel<V>(t: Tree<V>, v: V, key: V -> Coord)
    requires t.Branch? && t.left.Branch? && t.right.Branch? && key(v) == key(t.value)
    ensures var m := Leftmost(t.right);
      Inorder(Delete(t, v, key, false)) ==
      Inorder(t.left) + [Entry(m.value, t.tipo)] + Inorder(Delete(t.right, m.value, key, false))
  {
    var m := Leftmost(t.right);
    var s := TakeSuccessor(t, m, Delete(t.right, m.value, key, false), false);
    DeleteTwoChildren(t, v, key, false);
    ReplacedRightInorder(s);
  }

  /** Relabelling the one entry with key `k` that sits between two runs without it. */
  lemma RelabelMiddle<V>(a: seq<Entry<V>>, e: Entry<V>, w: seq<Entry<V>>, k: Coord, tipo: string, key: V -> Coord)
    requires key(e.value) == k
    requires forall x :: x in a ==> key(x.value) != k
    requires forall x :: x in w ==> key(x.value) != k
    ensures Relabel(a + ([e] + w), k, tipo, key) == a + [Entry(e.value, tipo)] + w
  {
    RelabelAbsent(a, k, tipo, key);
    RelabelAbsent(w, k, tipo, key);
    RelabelConcat(a, [e] + w, k, tipo, key);
    RelabelConcat([e], w, k, tipo, key);
    assert [e][1..] == [];
    assert Relabel([e], k, tipo, key) == [Entry(e.value, tipo)];
  }
}
