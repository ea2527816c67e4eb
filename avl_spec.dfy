/**
 * The AVL algorithms of models/avl.py (and of their copy in
 * models/tree.py) on tree values.
 *
 * Every function here computes what the in-place code computes: heights
 * are the stored `height` fields, rotations recompute exactly the two
 * heights the source recomputes, and the rebalancing cases are tried in
 * the source's order.  The ordering key of a stored value is supplied as
 * `key`: (x1, y1) for rectangles, (x, y) for points.
 */
module AvlSpec {
  import opened Nodes

  /** The ordering key of a stored value. */
  datatype Coord = Coord(x: int, y: int)

  /** The query window `[x_min, x_max] × [y_min, y_max]` of `range_query` in both trees. */
  datatype Box = Box(xMin: int, xMax: int, yMin: int, yMax: int)

  /** Strict lexicographic order on keys: first on x, ties broken on y. */
  predicate Below(a: Coord, b: Coord) {
    a.x < b.x || (a.x == b.x && a.y < b.y)
  }

  /** `compare`: -1, 0 or 1 as the first key is below, equal to or above the second. */
  function Compare(a: Coord, b: Coord): (c: int)
    ensures c == 0 <==> a == b
    ensures c < 0 <==> Below(a, b)
    ensures c > 0 <==> Below(b, a)
    ensures -1 <= c <= 1
  {
    if a.x < b.x then -1
    else if a.x > b.x then 1
    else if a.y < b.y then -1
    else if a.y > b.y then 1
    else 0
  }

  /** `Below` is a strict total order, so the tree order is well defined. */
  lemma BelowIsStrictTotalOrder(a: Coord, b: Coord, c: Coord)
    ensures !Below(a, a)
    ensures Below(a, b) ==> !Below(b, a)
    ensures Below(a, b) && Below(b, c) ==> Below(a, c)
    ensures a == b || Below(a, b) || Below(b, a)
  {
  }

  function Max(a: int, b: int): int {
    if a > b then a else b
  }

  // ---- Utilities ----

  /** `get_height`: the stored height, 0 for an absent subtree. */
  function Height<V>(t: Tree<V>): nat {
    if t.Empty? then 0 else t.height
  }

  /** `get_balance`: left height minus right height, 0 for an absent subtree. */
  function Balance<V>(t: Tree<V>): int {
    if t.Empty? then 0 else Height(t.left) - Height(t.right)
  }

  /** `_update_height`: recompute the root's height from its children's stored heights. */
  function Fix<V>(t: Tree<V>): Tree<V>
    requires t.Branch?
  {
    t.(height := 1 + Max(Height(t.left), Height(t.right)))
  }

  // ---- Rotations ----

  /** `right_rotate(z)`: the left child becomes the root; z and it get fresh heights. */
  function RotateRight<V>(z: Tree<V>): Tree<V>
    requires z.Branch? && z.left.Branch?
  {
    var y := z.left;
    Fix(y.(right := Fix(z.(left := y.right))))
  }

  /** `left_rotate(z)`: the right child becomes the root; z and it get fresh heights. */
  function RotateLeft<V>(z: Tree<V>): Tree<V>
    requires z.Branch? && z.right.Branch?
  {
    var y := z.right;
    Fix(y.(left := Fix(z.(right := y.left))))
  }

  // ---- What a tree holds ----

  /** The ordering keys stored in a tree. */
  ghost function Keys<V>(t: Tree<V>, key: V -> Coord): set<Coord> {
    if t.Empty? then {} else Keys(t.left, key) + {key(t.value)} + Keys(t.right, key)
  }

  /** Number of nodes. */
  function Size<V>(t: Tree<V>): nat {
    if t.Empty? then 0 else Size(t.left) + 1 + Size(t.right)
  }

  /** The length of the longest root-to-leaf path, computed from the shape alone. */
  function Depth<V>(t: Tree<V>): nat {
    if t.Empty? then 0 else 1 + Max(Depth(t.left), Depth(t.right))
  }

  /** `s` is `t` itself or a subtree hanging below it. */
  ghost predicate SubtreeOf<V>(s: Tree<V>, t: Tree<V>)
    decreases t
  {
    s == t || (t.Branch? && (SubtreeOf(s, t.left) || SubtreeOf(s, t.right)))
  }

  function EntryOf<V>(t: Tree<V>): Entry<V>
    requires t.Branch?
  {
    Entry(t.value, t.tipo)
  }

  // ---- Traversals ----

  /** `inorder`: left subtree, node, right subtree. */
  function Inorder<V>(t: Tree<V>): seq<Entry<V>> {
    if t.Empty? then [] else Inorder(t.left) + [EntryOf(t)] + Inorder(t.right)
  }

  /** `preorder`: node, left subtree, right subtree. */
  function Preorder<V>(t: Tree<V>): seq<Entry<V>> {
    if t.Empty? then [] else [EntryOf(t)] + Preorder(t.left) + Preorder(t.right)
  }

  /** `postorder`: left subtree, right subtree, node. */
  function Postorder<V>(t: Tree<V>): seq<Entry<V>> {
    if t.Empty? then [] else Postorder(t.left) + Postorder(t.right) + [EntryOf(t)]
  }

  // ---- The tree invariants ----

  /** Binary-search-tree order: left keys strictly below the node's key, right keys strictly above. */
  ghost predicate Ordered<V>(t: Tree<V>, key: V -> Coord) {
    t.Branch? ==>
      (forall k :: k in Keys(t.left, key) ==> Below(k, key(t.value))) &&
      (forall k :: k in Keys(t.right, key) ==> Below(key(t.value), k)) &&
      Ordered(t.left, key) && Ordered(t.right, key)
  }

  /** AVL balance: at every node the children's heights differ by at most one. */
  ghost predicate Balanced<V>(t: Tree<V>) {
    t.Branch? ==> -1 <= Balance(t) <= 1 && Balanced(t.left) && Balanced(t.right)
  }

  /** Every stored height is one more than the larger stored height of the children. */
  ghost predicate HeightsOk<V>(t: Tree<V>) {
    t.Branch? ==>
      t.height == 1 + Max(Height(t.left), Height(t.right)) &&
      HeightsOk(t.left) && HeightsOk(t.right)
  }

  /** The invariant every public operation restores. */
  ghost predicate IsAvl<V>(t: Tree<V>, key: V -> Coord) {
    Ordered(t, key) && Balanced(t) && HeightsOk(t)
  }

  /** With consistent heights, the stored height is the real height of the tree. */
  lemma {:induction false} HeightIsDepth<V>(t: Tree<V>)
    requires HeightsOk(t)
    ensures Height(t) == Depth(t)
  {
    if t.Branch? {
      HeightIsDepth(t.left);
      HeightIsDepth(t.right);
    }
  }

  /** In-order traversal of an ordered tree visits keys in strictly increasing order. */
  lemma {:induction false} InorderSorted<V>(t: Tree<V>, key: V -> Coord)
    requires Ordered(t, key)
    ensures forall i, j :: 0 <= i < j < |Inorder(t)| ==> Below(key(Inorder(t)[i].value), key(Inorder(t)[j].value))
    ensures forall e :: e in Inorder(t) ==> key(e.value) in Keys(t, key)
  {
    if t.Branch? {
      InorderSorted(t.left, key);
      InorderSorted(t.right, key);
      var s := Inorder(t);
      var a, b := Inorder(t.left), Inorder(t.right);
      assert s == a + [EntryOf(t)] + b;
      forall i, j | 0 <= i < j < |s|
        ensures Below(key(s[i].value), key(s[j].value))
      {
        if j < |a| {
          assert s[i] == a[i] && s[j] == a[j];
        } else if i > |a| {
          assert s[i] == b[i - |a| - 1] && s[j] == b[j - |a| - 1];
        } else if i == |a| {
          assert s[j] in b;
        } else if j == |a| {
          assert s[i] in a;
        } else {
          assert s[i] in a && s[j] in b;
          BelowIsStrictTotalOrder(key(s[i].value), key(t.value), key(s[j].value));
        }
      }
    }
  }

  // ---- Rotations keep the order and restore balance ----

  /** A rotation keeps the in-order sequence and the key set. */
  lemma RotateRightKeepsOrder<V>(z: Tree<V>, key: V -> Coord)
    requires z.Branch? && z.left.Branch?
    ensures Inorder(RotateRight(z)) == Inorder(z)
    ensures Keys(RotateRight(z), key) == Keys(z, key)
    ensures Ordered(z, key) ==> Ordered(RotateRight(z), key)
  {
    RotateRightInorder(z);
    RotateRightKeys(z, key);
    if Ordered(z, key) {
      RotateRightOrdered(z, key);
    }
  }

  /** The five pieces of a rotated subtree's traversal, grouped either way. */
  lemma Regroup5<T>(a: seq<T>, x: T, b: seq<T>, y: T, c: seq<T>)
    ensures a + [x] + (b + [y] + c) == (a + [x] + b) + [y] + c
  {
  }

  lemma RotateRightInorder<V>(z: Tree<V>)
    requires z.Branch? && z.left.Branch?
    ensures Inorder(RotateRight(z)) == Inorder(z)
  {
    var y := z.left;
    var a, b, c := y.left, y.right, z.right;
    var z1 := Fix(z.(left := b));
    assert RotateRight(z) == Fix(y.(right := z1));
    assert Inorder(RotateRight(z)) == Inorder(a) + [EntryOf(y)] + (Inorder(b) + [EntryOf(z)] + Inorder(c));
    assert Inorder(z) == (Inorder(a) + [EntryOf(y)] + Inorder(b)) + [EntryOf(z)] + Inorder(c);
    Regroup5(Inorder(a), EntryOf(y), Inorder(b), EntryOf(z), Inorder(c));
  }

  lemma RotateRightKeys<V>(z: Tree<V>, key: V -> Coord)
    requires z.Branch? && z.left.Branch?
    ensures Keys(RotateRight(z), key) == Keys(z, key)
  {
    var y := z.left;
    var b, c := y.right, z.right;
    var z1 := Fix(z.(left := b));
    assert RotateRight(z) == Fix(y.(right := z1));
    assert Keys(z1, key) == Keys(b, key) + {key(z.value)} + Keys(c, key);
  }

  lemma RotateRightOrdered<V>(z: Tree<V>, key: V -> Coord)
    requires z.Branch? && z.left.Branch? && Ordered(z, key)
    ensures Ordered(RotateRight(z), key)
  {
    var y := z.left;
    var b, c := y.right, z.right;
    var z1 := Fix(z.(left := b));
    var kz, ky := key(z.value), key(y.value);
    assert Keys(z1, key) == Keys(b, key) + {kz} + Keys(c, key);
    assert Ordered(z1, key) by {
      assert forall k :: k in Keys(b, key) ==> k in Keys(y, key);
    }
    forall k | k in Keys(z1, key) ensures Below(ky, k) {
      if k in Keys(c, key) {
        BelowIsStrictTotalOrder(ky, kz, k);
      }
    }
  }

  lemma RotateLeftKeepsOrder<V>(z: Tree<V>, key: V -> Coord)
    requires z.Branch? && z.right.Branch?
    ensures Inorder(RotateLeft(z)) == Inorder(z)
    ensures Keys(RotateLeft(z), key) == Keys(z, key)
    ensures Ordered(z, key) ==> Ordered(RotateLeft(z), key)
  {
    RotateLeftInorder(z);
    RotateLeftKeys(z, key);
    if Ordered(z, key) {
      RotateLeftOrdered(z, key);
    }
  }

  lemma RotateLeftInorder<V>(z: Tree<V>)
    requires z.Branch? && z.right.Branch?
    ensures Inorder(RotateLeft(z)) == Inorder(z)
  {
    var y := z.right;
    var a, b, c := z.left, y.left, y.right;
    var z1 := Fix(z.(right := b));
    assert RotateLeft(z) == Fix(y.(left := z1));
    assert Inorder(RotateLeft(z)) == (Inorder(a) + [EntryOf(z)] + Inorder(b)) + [EntryOf(y)] + Inorder(c);
    assert Inorder(z) == Inorder(a) + [EntryOf(z)] + (Inorder(b) + [EntryOf(y)] + Inorder(c));
    Regroup5(Inorder(a), EntryOf(z), Inorder(b), EntryOf(y), Inorder(c));
  }

  lemma RotateLeftKeys<V>(z: Tree<V>, key: V -> Coord)
    requires z.Branch? && z.right.Branch?
    ensures Keys(RotateLeft(z), key) == Keys(z, key)
  {
    var y := z.right;
    var a, b := z.left, y.left;
    var z1 := Fix(z.(right := b));
    assert RotateLeft(z) == Fix(y.(left := z1));
    assert Keys(z1, key) == Keys(a, key) + {key(z.value)} + Keys(b, key);
  }

  lemma RotateLeftOrdered<V>(z: Tree<V>, key: V -> Coord)
    requires z.Branch? && z.right.Branch? && Ordered(z, key)
    ensures Ordered(RotateLeft(z), key)
  {
    var y := z.right;
    var a, b := z.left, y.left;
    var z1 := Fix(z.(right := b));
    var kz, ky := key(z.value), key(y.value);
    assert Keys(z1, key) == Keys(a, key) + {kz} + Keys(b, key);
    assert Ordered(z1, key) by {
      assert forall k :: k in Keys(b, key) ==> k in Keys(y, key);
    }
    forall k | k in Keys(z1, key) ensures Below(k, ky) {
      if k in Keys(a, key) {
        BelowIsStrictTotalOrder(k, kz, ky);
      }
    }
  }

  /**
   * Left-left case: the left subtree is two taller and does not lean
   * right; one right rotation makes the node AVL again.
   */
  lemma RotateRightRebalances<V>(z: Tree<V>, key: V -> Coord)
    requires z.Branch? && z.left.Branch?
    requires IsAvl(z.left, key) && IsAvl(z.right, key) && Ordered(z, key)
    requires Height(z.left) == Height(z.right) + 2 && Balance(z.left) >= 0
    ensures IsAvl(RotateRight(z), key)
    ensures Height(RotateRight(z)) == Height(z.right) + (if Balance(z.left) == 0 then 3 else 2)
  {
    RotateRightKeepsOrder(z, key);
  }

  lemma RotateLeftRebalances<V>(z: Tree<V>, key: V -> Coord)
    requires z.Branch? && z.right.Branch?
    requires IsAvl(z.left, key) && IsAvl(z.right, key) && Ordered(z, key)
    requires Height(z.right) == Height(z.left) + 2 && Balance(z.right) <= 0
    ensures IsAvl(RotateLeft(z), key)
    ensures Height(RotateLeft(z)) == Height(z.left) + (if Balance(z.right) == 0 then 3 else 2)
  {
    RotateLeftKeepsOrder(z, key);
  }

  /**
   * Left-right case: the left subtree is two taller and leans right; a
   * left rotation of the child then a right rotation of the node make it
   * AVL again, one level lower.
   */
  lemma RotateLeftRightRebalances<V>(z: Tree<V>, key: V -> Coord)
    requires z.Branch? && z.left.Branch? && z.left.right.Branch?
    requires IsAvl(z.left, key) && IsAvl(z.right, key) && Ordered(z, key)
    requires Height(z.left) == Height(z.right) + 2 && Balance(z.left) < 0
    ensures IsAvl(RotateRight(z.(left := RotateLeft(z.left))), key)
    ensures Inorder(RotateRight(z.(left := RotateLeft(z.left)))) == Inorder(z)
    ensures Keys(RotateRight(z.(left := RotateLeft(z.left))), key) == Keys(z, key)
    ensures Height(RotateRight(z.(left := RotateLeft(z.left)))) == Height(z.right) + 2
  {
    LeftRightShape(z);
    var z1 := z.(left := RotateLeft(z.left));
    RotateLeftKeepsOrder(z.left, key);
    assert Inorder(z1) == Inorder(z);
    assert Keys(z1, key) == Keys(z, key);
    RotateRightKeepsOrder(z1, key);
  }

  /** The heights after a left-right double rotation. */
  lemma LeftRightShape<V>(z: Tree<V>)
    requires z.Branch? && z.left.Branch? && z.left.right.Branch?
    requires Balanced(z.left) && HeightsOk(z.left) && Balanced(z.right) && HeightsOk(z.right)
    requires Height(z.left) == Height(z.right) + 2 && Balance(z.left) < 0
    ensures Balanced(RotateRight(z.(left := RotateLeft(z.left))))
    ensures HeightsOk(RotateRight(z.(left := RotateLeft(z.left))))
    ensures Height(RotateRight(z.(left := RotateLeft(z.left)))) == Height(z.right) + 2
  {
    var y := z.left;
    var w := y.right;
    var a, b1, b2, c := y.left, w.left, w.right, z.right;
    var h := Height(c);
    assert Height(a) == h && Height(w) == h + 1;
    assert HeightsOk(w) && Balanced(w) && HeightsOk(a) && Balanced(a);
    assert HeightsOk(b1) && Balanced(b1) && HeightsOk(b2) && Balanced(b2);
    assert w.height == 1 + Max(Height(b1), Height(b2));
    assert h - 1 <= Height(b1) <= h && h - 1 <= Height(b2) <= h;
    var y2 := y.(left := a, height := h + 1, right := b1);
    var z2 := z.(left := b2, height := h + 1, right := c);
    Join(y, a, b1, h);
    Join(z, b2, c, h);
    Join(w, y2, z2, h + 1);
    LeftRightResult(z, h);
  }

  /** The tree a left-right double rotation builds, when the grandchild's subtrees are no taller than `h`. */
  lemma LeftRightResult<V>(z: Tree<V>, h: nat)
    requires z.Branch? && z.left.Branch? && z.left.right.Branch?
    requires Height(z.left.left) == h && Height(z.right) == h
    requires Height(z.left.right.left) <= h && Height(z.left.right.right) <= h
    ensures RotateRight(z.(left := RotateLeft(z.left))) ==
      z.left.right.(left := z.left.(right := z.left.right.left, height := h + 1),
                    height := h + 2,
                    right := z.(left := z.left.right.right, height := h + 1))
  {
    var y := z.left;
    var w := y.right;
    var y2 := y.(right := w.left, height := h + 1);
    var z2 := z.(left := w.right, height := h + 1);
    assert Fix(y.(right := w.left)) == y2;
    assert RotateLeft(y) == Fix(w.(left := y2));
    var x := w.(left := y2, height := h + 2);
    assert Fix(w.(left := y2)) == x;
    assert Fix(z.(left := w.right)) == z2;
    assert RotateRight(z.(left := x)) == Fix(x.(right := z2));
  }

  /** A node over two balanced subtrees of heights `h - 1` or `h`, one of them `h`, is balanced with height `h + 1`. */
  lemma Join<V>(n: Tree<V>, l: Tree<V>, r: Tree<V>, h: nat)
    requires n.Branch?
    requires Balanced(l) && HeightsOk(l) && Balanced(r) && HeightsOk(r)
    requires h <= Height(l) + 1 && h <= Height(r) + 1 && Max(Height(l), Height(r)) == h
    ensures Balanced(n.(left := l, height := h + 1, right := r))
    ensures HeightsOk(n.(left := l, height := h + 1, right := r))
  {
  }

  lemma RotateRightLeftRebalances<V>(z: Tree<V>, key: V -> Coord)
    requires z.Branch? && z.right.Branch? && z.right.left.Branch?
    requires IsAvl(z.left, key) && IsAvl(z.right, key) && Ordered(z, key)
    requires Height(z.right) == Height(z.left) + 2 && Balance(z.right) > 0
    ensures IsAvl(RotateLeft(z.(right := RotateRight(z.right))), key)
    ensures Inorder(RotateLeft(z.(right := RotateRight(z.right)))) == Inorder(z)
    ensures Keys(RotateLeft(z.(right := RotateRight(z.right))), key) == Keys(z, key)
    ensures Height(RotateLeft(z.(right := RotateRight(z.right)))) == Height(z.left) + 2
  {
    RightLeftShape(z);
    var z1 := z.(right := RotateRight(z.right));
    RotateRightKeepsOrder(z.right, key);
    assert Inorder(z1) == Inorder(z);
    assert Keys(z1, key) == Keys(z, key);
    RotateLeftKeepsOrder(z1, key);
  }

  /** The heights after a right-left double rotation. */
  lemma RightLeftShape<V>(z: Tree<V>)
    requires z.Branch? && z.right.Branch? && z.right.left.Branch?
    requires Balanced(z.left) && HeightsOk(z.left) && Balanced(z.right) && HeightsOk(z.right)
    requires Height(z.right) == Height(z.left) + 2 && Balance(z.right) > 0
    ensures Balanced(RotateLeft(z.(right := RotateRight(z.right))))
    ensures HeightsOk(RotateLeft(z.(right := RotateRight(z.right))))
    ensures Height(RotateLeft(z.(right := RotateRight(z.right)))) == Height(z.left) + 2
  {
    var y := z.right;
    var w := y.left;
    var a, b1, b2, c := z.left, w.left, w.right, y.right;
    var h := Height(a);
    assert Height(c) == h && Height(w) == h + 1;
    assert HeightsOk(w) && Balanced(w) && HeightsOk(c) && Balanced(c);
    assert HeightsOk(b1) && Balanced(b1) && HeightsOk(b2) && Balanced(b2);
    assert w.height == 1 + Max(Height(b1), Height(b2));
    assert h - 1 <= Height(b1) <= h && h - 1 <= Height(b2) <= h;
    var z2 := z.(left := a, height := h + 1, right := b1);
    var y2 := y.(left := b2, height := h + 1, right := c);
    Join(z, a, b1, h);
    Join(y, b2, c, h);
    Join(w, z2, y2, h + 1);
    RightLeftResult(z, h);
  }

  /** The tree a right-left double rotation builds, when the grandchild's subtrees are no taller than `h`. */
  lemma RightLeftResult<V>(z: Tree<V>, h: nat)
    requires z.Branch? && z.right.Branch? && z.right.left.Branch?
    requires Height(z.right.right) == h && Height(z.left) == h
    requires Height(z.right.left.left) <= h && Height(z.right.left.right) <= h
    ensures RotateLeft(z.(right := RotateRight(z.right))) ==
      z.right.left.(left := z.(right := z.right.left.left, height := h + 1),
                    height := h + 2,
                    right := z.right.(left := z.right.left.right, height := h + 1))
  {
    var y := z.right;
    var w := y.left;
    var y2 := y.(left := w.right, height := h + 1);
    var z2 := z.(right := w.left, height := h + 1);
    assert Fix(y.(left := w.right)) == y2;
    assert RotateRight(y) == Fix(w.(right := y2));
    var x := w.(height := h + 2, right := y2);
    assert Fix(w.(right := y2)) == x;
    assert Fix(z.(right := w.left)) == z2;
    assert RotateLeft(z.(right := x)) == Fix(x.(left := z2));
  }
}
