/**
 * The point tree of models/tree.py: the same AVL algorithms over points
 * `(x, y)`, ordered on the whole point, with its own `search` and a
 * point-containment `range_query` whose pruning is exact.
 */
module PointTree {
  import opened Wrappers
  import opened Nodes
  import opened AvlSpec
  import opened AvlInsert
  import opened Traversals
  import opened Seqs

  /** A stored obstacle position `(x, y)`. */
  datatype Point = Point(x: int, y: int)

  /** The ordering key of a point is the point itself. */
  function PointKey(p: Point): Coord {
    Coord(p.x, p.y)
  }

  /** `compare(v1, v2)`: lexicographic on `x`, then `y`; 0 exactly on equal coordinates. */
  function ComparePoints(a: Point, b: Point): (c: int)
    ensures c == Compare(PointKey(a), PointKey(b))
    ensures c == 0 <==> a == b
  {
    if a.x < b.x then -1
    else if a.x > b.x then 1
    else if a.y < b.y then -1
    else if a.y > b.y then 1
    else 0
  }

  // ---- insert ----

  /**
   * `insert` on the point tree: a point stored already leaves the tree as
   * it is; any other is added as exactly one entry, and the tree stays an
   * AVL tree.
   */
  lemma InsertPoint(t: Tree<Point>, p: Point, tipe: string)
    requires IsAvl(t, PointKey)
    ensures IsAvl(Insert(t, p, tipe, PointKey), PointKey)
    ensures Keys(Insert(t, p, tipe, PointKey), PointKey) == Keys(t, PointKey) + {PointKey(p)}
    ensures PointKey(p) in Keys(t, PointKey) ==> Insert(t, p, tipe, PointKey) == t
    ensures PointKey(p) !in Keys(t, PointKey) ==>
      multiset(Inorder(Insert(t, p, tipe, PointKey))) == multiset(Inorder(t)) + multiset{Entry(p, tipe)}
  {
    if PointKey(p) in Keys(t, PointKey) {
      InsertPresent(t, p, tipe, PointKey);
    } else {
      InsertAdds(t, p, tipe, PointKey);
    }
  }

  /**
   * Seven points inserted in increasing order, all under the same label,
   * give the perfectly balanced tree of height 3.
   */
  lemma SevenIncreasingInserts(s: string)
    ensures var t1 := Insert(Empty, P(1), s, PointKey);
      var t2 := Insert(t1, P(2), s, PointKey);
      var t3 := Insert(t2, P(3), s, PointKey);
      var t4 := Insert(t3, P(4), s, PointKey);
      var t5 := Insert(t4, P(5), s, PointKey);
      var t6 := Insert(t5, P(6), s, PointKey);
      var t7 := Insert(t6, P(7), s, PointKey);
      t7 == T7(s) && IsAvl(t7, PointKey) && Height(t7) == 3 && Size(t7) == 7
  {
    Grow1(s);
    Grow2(s);
    Grow3(s);
    Grow4(s);
    Grow5(s);
    Grow6(s);
    Grow7(s);
    assert Size(T7(s)) == 7 by {
      assert Size(N(L(1, s), 2, 2, L(3, s), s)) == 3 by {
        Size1(1, s);
        Size1(3, s);
      }
      assert Size(N(L(5, s), 6, 2, L(7, s), s)) == 3 by {
        Size1(5, s);
        Size1(7, s);
      }
    }
  }

  lemma Size1(i: int, s: string)
    ensures Size(L(i, s)) == 1
  {
  }

  /** The points of `SevenIncreasingInserts` and the leaves that hold them. */
  function P(i: int): Point {
    Point(i, 0)
  }

  function L(i: int, s: string): Tree<Point> {
    Leaf(P(i), s)
  }

  /** A node holding `P(i)` over the given subtrees and stored height. */
  function N(l: Tree<Point>, i: int, h: nat, r: Tree<Point>, s: string): Tree<Point> {
    Branch(l, P(i), s, h, r, None)
  }

  /** The tree after each of the seven insertions. */
  function T1(s: string): Tree<Point> { L(1, s) }
  function T2(s: string): Tree<Point> { N(Empty, 1, 2, L(2, s), s) }
  function T3(s: string): Tree<Point> { N(L(1, s), 2, 2, L(3, s), s) }
  function T4(s: string): Tree<Point> { N(L(1, s), 2, 3, N(Empty, 3, 2, L(4, s), s), s) }
  function T5(s: string): Tree<Point> { N(L(1, s), 2, 3, N(L(3, s), 4, 2, L(5, s), s), s) }
  function T6(s: string): Tree<Point> { N(N(L(1, s), 2, 2, L(3, s), s), 4, 3, N(Empty, 5, 2, L(6, s), s), s) }
  function T7(s: string): Tree<Point> { N(N(L(1, s), 2, 2, L(3, s), s), 4, 3, N(L(5, s), 6, 2, L(7, s), s), s) }

  /**
   * A quantifier-free test that `t` is an AVL tree whose keys have `x`
   * strictly between `lo` and `hi`, built up for the example trees node
   * by node.
   */
  predicate Checked(t: Tree<Point>, lo: int, hi: int) {
    t.Empty? ||
    (lo < t.value.x < hi &&
     t.height == 1 + Max(Height(t.left), Height(t.right)) && -1 <= Balance(t) <= 1 &&
     Checked(t.left, lo, t.value.x) && Checked(t.right, t.value.x, hi))
  }

  lemma {:induction false} CheckedSound(t: Tree<Point>, lo: int, hi: int)
    requires Checked(t, lo, hi)
    ensures IsAvl(t, PointKey)
    ensures forall k :: k in Keys(t, PointKey) ==> lo < k.x < hi
  {
    if t.Branch? {
      CheckedSound(t.left, lo, t.value.x);
      CheckedSound(t.right, t.value.x, hi);
    }
  }

  lemma ExampleAvl(t: Tree<Point>)
    requires Checked(t, 0, 8)
    ensures IsAvl(t, PointKey)
  {
    CheckedSound(t, 0, 8);
  }

  lemma LeafChecked(i: int, s: string, lo: int, hi: int)
    requires lo < i < hi
    ensures Checked(L(i, s), lo, hi)
  {
    var t := L(i, s);
    assert Checked(t.left, lo, i) && Checked(t.right, i, hi);
  }

  lemma NodeChecked(l: Tree<Point>, i: int, h: nat, r: Tree<Point>, s: string, lo: int, hi: int)
    requires lo < i < hi && Checked(l, lo, i) && Checked(r, i, hi)
    requires h == 1 + Max(Height(l), Height(r)) && -1 <= Height(l) - Height(r) <= 1
    ensures Checked(N(l, i, h, r, s), lo, hi)
  {
    var t := N(l, i, h, r, s);
    assert t.left == l && t.right == r && t.value.x == i && t.height == h;
  }

  lemma Checked3(s: string, a: int, b: int, c: int, lo: int, hi: int)
    requires lo < a < b < c < hi
    ensures Checked(N(L(a, s), b, 2, L(c, s), s), lo, hi)
  {
    LeafChecked(a, s, lo, b);
    LeafChecked(c, s, b, hi);
    NodeChecked(L(a, s), b, 2, L(c, s), s, lo, hi);
  }

  lemma Checked2(s: string, a: int, b: int, lo: int, hi: int)
    requires lo < a < b < hi
    ensures Checked(N(Empty, a, 2, L(b, s), s), lo, hi)
  {
    LeafChecked(b, s, a, hi);
    NodeChecked(Empty, a, 2, L(b, s), s, lo, hi);
  }

  /** Each example tree is an AVL tree. */
  lemma Avl1(s: string)
    ensures IsAvl(T1(s), PointKey)
  {
    LeafChecked(1, s, 0, 8);
    ExampleAvl(T1(s));
  }

  lemma Avl2(s: string)
    ensures IsAvl(T2(s), PointKey)
  {
    Checked2(s, 1, 2, 0, 8);
    ExampleAvl(T2(s));
  }

  lemma Avl3(s: string)
    ensures IsAvl(T3(s), PointKey)
  {
    Checked3(s, 1, 2, 3, 0, 8);
    ExampleAvl(T3(s));
  }

  lemma Avl4(s: string)
    ensures IsAvl(T4(s), PointKey)
  {
    LeafChecked(1, s, 0, 2);
    Checked2(s, 3, 4, 2, 8);
    NodeChecked(L(1, s), 2, 3, N(Empty, 3, 2, L(4, s), s), s, 0, 8);
    ExampleAvl(T4(s));
  }

  lemma Avl5(s: string)
    ensures IsAvl(T5(s), PointKey)
  {
    LeafChecked(1, s, 0, 2);
    Checked3(s, 3, 4, 5, 2, 8);
    NodeChecked(L(1, s), 2, 3, N(L(3, s), 4, 2, L(5, s), s), s, 0, 8);
    ExampleAvl(T5(s));
  }

  lemma Avl6(s: string)
    ensures IsAvl(T6(s), PointKey)
  {
    Checked3(s, 1, 2, 3, 0, 4);
    Checked2(s, 5, 6, 4, 8);
    NodeChecked(N(L(1, s), 2, 2, L(3, s), s), 4, 3, N(Empty, 5, 2, L(6, s), s), s, 0, 8);
    ExampleAvl(T6(s));
  }

  lemma Avl7(s: string)
    ensures IsAvl(T7(s), PointKey)
  {
    Checked3(s, 1, 2, 3, 0, 4);
    Checked3(s, 5, 6, 7, 4, 8);
    NodeChecked(N(L(1, s), 2, 2, L(3, s), s), 4, 3, N(L(5, s), 6, 2, L(7, s), s), s, 0, 8);
    ExampleAvl(T7(s));
  }

  /** Each insertion, one path node at a time. */
  lemma Grow1(s: string)
    ensures Insert(Empty, P(1), s, PointKey) == T1(s)
    ensures IsAvl(T1(s), PointKey)
  {
    Avl1(s);
  }

  lemma Grow2(s: string)
    ensures IsAvl(T1(s), PointKey)
    ensures Insert(T1(s), P(2), s, PointKey) == T2(s)
    ensures IsAvl(T2(s), PointKey)
  {
    Avl1(s);
    Avl2(s);
    var t := T1(s);
    assert Insert(t.right, P(2), s, PointKey) == L(2, s);
  }

  lemma Grow3(s: string)
    ensures IsAvl(T2(s), PointKey)
    ensures Insert(T2(s), P(3), s, PointKey) == T3(s)
    ensures IsAvl(T3(s), PointKey)
  {
    Avl2(s);
    Avl3(s);
    Grow3Below(s);
    var t1 := Fix(N(Empty, 1, 2, N(Empty, 2, 2, L(3, s), s), s));
    assert RebalanceInsert(t1, P(3), PointKey) == RotateLeft(t1);
  }

  lemma Grow3Below(s: string)
    ensures IsAvl(L(2, s), PointKey)
    ensures Insert(L(2, s), P(3), s, PointKey) == N(Empty, 2, 2, L(3, s), s)
  {
    LeafChecked(2, s, 0, 8);
    ExampleAvl(L(2, s));
    assert Insert(Empty, P(3), s, PointKey) == L(3, s);
  }

  lemma Grow4(s: string)
    ensures IsAvl(T3(s), PointKey)
    ensures Insert(T3(s), P(4), s, PointKey) == T4(s)
    ensures IsAvl(T4(s), PointKey)
  {
    Avl3(s);
    Avl4(s);
    Grow4Below(s);
  }

  lemma Grow4Below(s: string)
    ensures IsAvl(L(3, s), PointKey)
    ensures Insert(L(3, s), P(4), s, PointKey) == N(Empty, 3, 2, L(4, s), s)
  {
    LeafChecked(3, s, 0, 8);
    ExampleAvl(L(3, s));
    assert Insert(Empty, P(4), s, PointKey) == L(4, s);
  }

  lemma Grow5(s: string)
    ensures IsAvl(T4(s), PointKey)
    ensures Insert(T4(s), P(5), s, PointKey) == T5(s)
    ensures IsAvl(T5(s), PointKey)
  {
    Avl4(s);
    Avl5(s);
    Grow5Below(s);
  }

  lemma Grow5Below(s: string)
    ensures IsAvl(N(Empty, 3, 2, L(4, s), s), PointKey)
    ensures Insert(N(Empty, 3, 2, L(4, s), s), P(5), s, PointKey) == N(L(3, s), 4, 2, L(5, s), s)
  {
    Checked2(s, 3, 4, 0, 8);
    ExampleAvl(N(Empty, 3, 2, L(4, s), s));
    assert Insert(L(4, s), P(5), s, PointKey) == N(Empty, 4, 2, L(5, s), s) by {
      LeafChecked(4, s, 0, 8);
      ExampleAvl(L(4, s));
      assert Insert(Empty, P(5), s, PointKey) == L(5, s);
    }
    var t1 := Fix(N(Empty, 3, 2, N(Empty, 4, 2, L(5, s), s), s));
    assert RebalanceInsert(t1, P(5), PointKey) == RotateLeft(t1);
  }

  lemma Grow6(s: string)
    ensures IsAvl(T5(s), PointKey)
    ensures Insert(T5(s), P(6), s, PointKey) == T6(s)
    ensures IsAvl(T6(s), PointKey)
  {
    Avl5(s);
    Avl6(s);
    Grow6Below(s);
    Grow6Top(s);
  }

  lemma Grow6Top(s: string)
    ensures var t1 := Fix(N(L(1, s), 2, 3, N(L(3, s), 4, 3, N(Empty, 5, 2, L(6, s), s), s), s));
      InsertPending(t1, P(6), PointKey) && RebalanceInsert(t1, P(6), PointKey) == T6(s)
  {
    Avl5(s);
    Grow6Below(s);
    InsertedRight(T5(s), N(L(3, s), 4, 3, N(Empty, 5, 2, L(6, s), s), s), P(6), PointKey);
    var t1 := Fix(N(L(1, s), 2, 3, N(L(3, s), 4, 3, N(Empty, 5, 2, L(6, s), s), s), s));
    assert RebalanceInsert(t1, P(6), PointKey) == RotateLeft(t1);
  }

  lemma Grow6Below(s: string)
    ensures IsAvl(N(L(3, s), 4, 2, L(5, s), s), PointKey)
    ensures Insert(N(L(3, s), 4, 2, L(5, s), s), P(6), s, PointKey) == N(L(3, s), 4, 3, N(Empty, 5, 2, L(6, s), s), s)
  {
    Checked3(s, 3, 4, 5, 0, 8);
    ExampleAvl(N(L(3, s), 4, 2, L(5, s), s));
    assert Insert(L(5, s), P(6), s, PointKey) == N(Empty, 5, 2, L(6, s), s) by {
      LeafChecked(5, s, 0, 8);
      ExampleAvl(L(5, s));
      assert Insert(Empty, P(6), s, PointKey) == L(6, s);
    }
  }

  lemma Grow7(s: string)
    ensures IsAvl(T6(s), PointKey)
    ensures Insert(T6(s), P(7), s, PointKey) == T7(s)
    ensures IsAvl(T7(s), PointKey)
  {
    Avl6(s);
    Avl7(s);
    Grow7Below(s);
  }

  lemma Grow7Below(s: string)
    ensures IsAvl(N(Empty, 5, 2, L(6, s), s), PointKey)
    ensures Insert(N(Empty, 5, 2, L(6, s), s), P(7), s, PointKey) == N(L(5, s), 6, 2, L(7, s), s)
  {
    Checked2(s, 5, 6, 0, 8);
    ExampleAvl(N(Empty, 5, 2, L(6, s), s));
    assert Insert(L(6, s), P(7), s, PointKey) == N(Empty, 6, 2, L(7, s), s) by {
      LeafChecked(6, s, 0, 8);
      ExampleAvl(L(6, s));
      assert Insert(Empty, P(7), s, PointKey) == L(7, s);
    }
    var t1 := Fix(N(Empty, 5, 2, N(Empty, 6, 2, L(7, s), s), s));
    assert RebalanceInsert(t1, P(7), PointKey) == RotateLeft(t1);
  }

  // ---- search ----

  /**
   * `search(root, value)`: stop at the node whose point compares equal,
   * descend left when below it and right when above it.
   */
  function Search(t: Tree<Point>, p: Point): (r: Option<Tree<Point>>)
    ensures r.Some? ==> r.value.Branch? && r.value.value == p && PointKey(p) in Keys(t, PointKey)
    ensures r.Some? ==> SubtreeOf(r.value, t) && EntryOf(r.value) in Inorder(t)
    decreases t
  {
    if t.Empty? then None
    else
      var c := ComparePoints(p, t.value);
      if c == 0 then Some(t)
      else if c < 0 then Search(t.left, p)
      else Search(t.right, p)
  }

  /** In an ordered tree, `search` finds a point exactly when it is stored, and returns None otherwise. */
  lemma {:induction false} SearchFindsKey(t: Tree<Point>, p: Point)
    requires Ordered(t, PointKey)
    ensures Search(t, p).Some? <==> PointKey(p) in Keys(t, PointKey)
    decreases t
  {
    if t.Branch? {
      var k, kt := PointKey(p), PointKey(t.value);
      var c := ComparePoints(p, t.value);
      if c < 0 {
        SearchFindsKey(t.left, p);
        BelowIsStrictTotalOrder(k, kt, k);
      } else if c > 0 {
        SearchFindsKey(t.right, p);
        BelowIsStrictTotalOrder(k, kt, k);
      }
    }
  }

  // ---- range_query ----

  /** The test `range_query` applies: the point lies in the window, bounds included. */
  predicate Inside(p: Point, b: Box) {
    b.xMin <= p.x <= b.xMax && b.yMin <= p.y <= b.yMax
  }

  /** The brute-force selector: entries whose point lies in the window. */
  function InBox(b: Box): Entry<Point> -> bool {
    (e: Entry<Point>) => Inside(e.value, b)
  }

  /**
   * The nodes `range_query` appends: the node when its point is in the
   * window, then the left subtree's when `x >= x_min`, then the right
   * subtree's when `x <= x_max`.
   */
  function Found(t: Tree<Point>, b: Box): (r: seq<Entry<Point>>)
    ensures |r| <= Size(t)
    decreases t
  {
    if t.Empty? then []
    else
      var v := t.value;
      (if Inside(v, b) then [EntryOf(t)] else [])
      + (if t.left.Branch? && v.x >= b.xMin then Found(t.left, b) else [])
      + (if t.right.Branch? && v.x <= b.xMax then Found(t.right, b) else [])
  }

  /**
   * `range_query(root, x_min, x_max, y_min, y_max, result)` as the source
   * runs it, threading the shared `result` list: the nodes of `Found` are
   * appended to `result`, which an absent root returns unchanged.
   */
  method RangeQuery(root: Tree<Point>, xMin: int, xMax: int, yMin: int, yMax: int, result: seq<Entry<Point>> := [])
    returns (r: seq<Entry<Point>>)
    ensures r == result + Found(root, Box(xMin, xMax, yMin, yMax))
    ensures root.Empty? ==> r == result
    decreases root
  {
    r := result;
    if root.Empty? {
      return;
    }
    ghost var b := Box(xMin, xMax, yMin, yMax);
    var v := root.value;
    ghost var h := if Inside(v, b) then [EntryOf(root)] else [];
    ghost var fl := if root.left.Branch? && v.x >= b.xMin then Found(root.left, b) else [];
    ghost var fr := if root.right.Branch? && v.x <= b.xMax then Found(root.right, b) else [];
    if xMin <= v.x <= xMax && yMin <= v.y <= yMax {
      r := r + [EntryOf(root)];
    }
    assert r == result + h;
    if root.left.Branch? && v.x >= xMin {
      r := RangeQuery(root.left, xMin, xMax, yMin, yMax, r);
    }
    assert r == result + h + fl;
    if root.right.Branch? && v.x <= xMax {
      r := RangeQuery(root.right, xMin, xMax, yMin, yMax, r);
    }
    assert r == result + h + fl + fr;
    assert Found(root, b) == h + fl + fr;
    Assoc4(result, h, fl, fr);
  }

  /**
   * On an ordered tree the pruning never skips a match: `range_query`
   * returns exactly the nodes whose point lies in the window, in preorder.
   */
  lemma {:induction false} FoundExact(t: Tree<Point>, b: Box)
    requires Ordered(t, PointKey)
    ensures Found(t, b) == Filter(Preorder(t), InBox(b))
    decreases t
  {
    if t.Branch? {
      FoundExact(t.left, b);
      FoundExact(t.right, b);
      PreorderFilter(t, InBox(b));
      FilterSingle(EntryOf(t), InBox(b));
      if t.value.x < b.xMin {
        LeftBeforeWindow(t, b);
      }
      if t.value.x > b.xMax {
        RightBeyondWindow(t, b);
      }
    }
  }

  /** When the node's `x` is below `x_min`, no point of its left subtree lies in the window. */
  lemma LeftBeforeWindow(t: Tree<Point>, b: Box)
    requires t.Branch? && Ordered(t, PointKey) && t.value.x < b.xMin
    ensures Filter(Preorder(t.left), InBox(b)) == []
  {
    var pl := Preorder(t.left);
    PreorderKeys(t.left, PointKey);
    forall i | 0 <= i < |pl|
      ensures !InBox(b)(pl[i])
    {
      assert PointKey(pl[i].value) in Keys(t.left, PointKey);
    }
    FilterNone(pl, InBox(b));
  }

  /** When the node's `x` is beyond `x_max`, no point of its right subtree lies in the window. */
  lemma RightBeyondWindow(t: Tree<Point>, b: Box)
    requires t.Branch? && Ordered(t, PointKey) && t.value.x > b.xMax
    ensures Filter(Preorder(t.right), InBox(b)) == []
  {
    var pr := Preorder(t.right);
    PreorderKeys(t.right, PointKey);
    forall i | 0 <= i < |pr|
      ensures !InBox(b)(pr[i])
    {
      assert PointKey(pr[i].value) in Keys(t.right, PointKey);
    }
    FilterNone(pr, InBox(b));
  }

  /** On an ordered tree a record is reported exactly when it is stored and its point lies in the window. */
  lemma FoundMembers(t: Tree<Point>, b: Box, e: Entry<Point>)
    requires Ordered(t, PointKey)
    ensures e in Found(t, b) <==> e in Preorder(t) && Inside(e.value, b)
  {
    FoundExact(t, b);
    FilterMembers(Preorder(t), InBox(b), e);
  }
}
