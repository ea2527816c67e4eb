/**
 * The obstacle tree of models/avl.py: the shared AVL algorithms
 * instantiated with rectangles `(x1, y1, x2, y2)` ordered on their
 * lower-left corner `(x1, y1)`, plus what is particular to this file:
 * the full-tuple `search`, the rectangle-intersection `range_query` and
 * the label that the two-children `delete` leaves behind.
 */
module RectTree {
  import opened Wrappers
  import opened Nodes
  import opened AvlSpec
  import opened AvlInsert
  import opened AvlDelete
  import opened Traversals
  import opened Seqs

  /** A stored obstacle: the rectangle tuple `(x1, y1, x2, y2)`. */
  datatype Rect = Rect(x1: int, y1: int, x2: int, y2: int)

  /** The ordering key of an obstacle: `(x1, y1)`; `x2` and `y2` take no part. */
  function RectKey(r: Rect): Coord {
    Coord(r.x1, r.y1)
  }

  /**
   * `compare(v1, v2)`: lexicographic on `x1`, then `y1`. It is the shared
   * key order on the corners, and it is 0 exactly when both corners agree,
   * whatever `x2` and `y2` are.
   */
  function CompareRects(a: Rect, b: Rect): (c: int)
    ensures c == Compare(RectKey(a), RectKey(b))
    ensures c == 0 <==> a.x1 == b.x1 && a.y1 == b.y1
    ensures c < 0 <==> a.x1 < b.x1 || (a.x1 == b.x1 && a.y1 < b.y1)
  {
    if a.x1 < b.x1 then -1
    else if a.x1 > b.x1 then 1
    else if a.y1 < b.y1 then -1
    else if a.y1 > b.y1 then 1
    else 0
  }

  // ---- insert and delete ----

  /**
   * `insert` on the obstacle tree: a rectangle whose corner is stored
   * already leaves the tree as it is (value and label are not
   * overwritten); any other is added as exactly one entry, and the tree
   * stays an AVL tree.
   */
  lemma InsertObstacle(t: Tree<Rect>, v: Rect, tipo: string)
    requires IsAvl(t, RectKey)
    ensures IsAvl(Insert(t, v, tipo, RectKey), RectKey)
    ensures Keys(Insert(t, v, tipo, RectKey), RectKey) == Keys(t, RectKey) + {RectKey(v)}
    ensures RectKey(v) in Keys(t, RectKey) ==> Insert(t, v, tipo, RectKey) == t
    ensures RectKey(v) !in Keys(t, RectKey) ==>
      multiset(Inorder(Insert(t, v, tipo, RectKey))) == multiset(Inorder(t)) + multiset{Entry(v, tipo)}
  {
    if RectKey(v) in Keys(t, RectKey) {
      InsertPresent(t, v, tipo, RectKey);
    } else {
      InsertAdds(t, v, tipo, RectKey);
    }
  }

  /**
   * `delete` on the obstacle tree, with the successor's label carried
   * along: the result is an AVL tree, and its in-order entries are the
   * old ones without the deleted corner; a corner not stored leaves the
   * tree as it is.
   */
  lemma DeleteObstacle(t: Tree<Rect>, v: Rect)
    requires IsAvl(t, RectKey)
    ensures IsAvl(Delete(t, v, RectKey, true), RectKey)
    ensures Keys(Delete(t, v, RectKey, true), RectKey) == Keys(t, RectKey) - {RectKey(v)}
    ensures Inorder(Delete(t, v, RectKey, true)) == Without(Inorder(t), RectKey(v), RectKey)
    ensures RectKey(v) !in Keys(t, RectKey) ==> Delete(t, v, RectKey, true) == t
  {
    DeleteCorrect(t, v, RectKey, true);
    DeleteRemovesEntry(t, v, RectKey);
    if RectKey(v) !in Keys(t, RectKey) {
      DeleteAbsent(t, v, RectKey, true);
    }
  }

  /**
   * The two-children `delete` as written, on a three-node AVL tree: deleting
   * the root moves the successor's rectangle up but keeps the root's old
   * label "roca" in `tipo`; the successor's label "hueco" only reaches the
   * attribute `type`. The traversals then report the moved obstacle as a
   * "roca".
   */
  lemma DeleteKeepsStaleLabel()
    ensures var a, m, b := Rect(1, 0, 2, 1), Rect(5, 0, 6, 1), Rect(9, 0, 10, 1);
      var t := Branch(Leaf(a, "cono"), m, "roca", 2, Leaf(b, "hueco"), None);
      IsAvl(t, RectKey) &&
      Delete(t, m, RectKey, false) == Branch(Leaf(a, "cono"), b, "roca", 2, Empty, Some("hueco")) &&
      Inorder(Delete(t, m, RectKey, false)) == [Entry(a, "cono"), Entry(b, "roca")] &&
      Inorder(Delete(t, m, RectKey, true)) == [Entry(a, "cono"), Entry(b, "hueco")]
  {
    var a, m, b := Rect(1, 0, 2, 1), Rect(5, 0, 6, 1), Rect(9, 0, 10, 1);
    var t := Branch(Leaf(a, "cono"), m, "roca", 2, Leaf(b, "hueco"), None);
    var l := Leaf(a, "cono");
    assert Leftmost(t.right) == t.right;
    assert Delete(t.right, b, RectKey, false) == Empty;
    assert Delete(t.right, b, RectKey, true) == Empty;
    var s0 := Branch(l, b, "roca", 2, Empty, Some("hueco"));
    var s1 := Branch(l, b, "hueco", 2, Empty, None);
    assert TakeSuccessor(t, t.right, Empty, false) == s0;
    assert TakeSuccessor(t, t.right, Empty, true) == s1;
    assert Fix(s0) == s0 && Fix(s1) == s1;
    assert RebalanceDelete(s0) == s0 && RebalanceDelete(s1) == s1;
    DeleteTwoChildren(t, m, RectKey, false);
    DeleteTwoChildren(t, m, RectKey, true);
    assert Inorder(s0) == [Entry(a, "cono"), Entry(b, "roca")];
    assert Inorder(s1) == [Entry(a, "cono"), Entry(b, "hueco")];
  }

  // ---- search (by full tuple) ----

  /** The rectangles stored in a tree. */
  ghost function Values(t: Tree<Rect>): set<Rect> {
    if t.Empty? then {} else Values(t.left) + {t.value} + Values(t.right)
  }

  lemma {:induction false} ValuesKeys(t: Tree<Rect>, k: Rect)
    requires k in Values(t)
    ensures RectKey(k) in Keys(t, RectKey)
  {
    if k != t.value {
      if k in Values(t.left) {
        ValuesKeys(t.left, k);
      } else {
        ValuesKeys(t.right, k);
      }
    }
  }

  /**
   * `search(root, key)`: return the node whose stored tuple equals the
   * whole key; descend left when the key's corner is below the node's,
   * and right otherwise, equal corners included.
   */
  function Search(t: Tree<Rect>, k: Rect): (r: Option<Tree<Rect>>)
    ensures r.Some? ==> r.value.Branch? && r.value.value == k && k in Values(t)
    ensures r.Some? ==> SubtreeOf(r.value, t) && EntryOf(r.value) in Inorder(t)
    decreases t
  {
    if t.Empty? then None
    else if k == t.value then Some(t)
    else if CompareRects(k, t.value) < 0 then Search(t.left, k)
    else Search(t.right, k)
  }

  /** In an ordered tree, `search` finds a rectangle exactly when that very tuple is stored. */
  lemma {:induction false} SearchFindsStored(t: Tree<Rect>, k: Rect)
    requires Ordered(t, RectKey)
    ensures Search(t, k).Some? <==> k in Values(t)
    decreases t
  {
    if t.Branch? && k != t.value {
      var kt := RectKey(t.value);
      if CompareRects(k, t.value) < 0 {
        SearchFindsStored(t.left, k);
        if k in Values(t.right) {
          ValuesKeys(t.right, k);
          BelowIsStrictTotalOrder(kt, RectKey(k), kt);
        }
      } else {
        SearchFindsStored(t.right, k);
        if k in Values(t.left) {
          ValuesKeys(t.left, k);
          BelowIsStrictTotalOrder(kt, RectKey(k), kt);
        }
      }
    }
  }

  /**
   * The full-tuple quirk: a rectangle with a stored corner but other
   * `x2`/`y2` is not found, although `insert` treats it as a duplicate.
   */
  lemma SearchNeedsWholeTuple(t: Tree<Rect>, k: Rect)
    requires Ordered(t, RectKey) && RectKey(k) in Keys(t, RectKey) && k !in Values(t)
    ensures Search(t, k) == None
  {
    SearchFindsStored(t, k);
  }

  // ---- range_query ----

  /** The test `range_query` applies: the rectangle meets the window. */
  predicate Intersects(r: Rect, b: Box) {
    !(r.x2 < b.xMin || r.x1 > b.xMax || r.y2 < b.yMin || r.y1 > b.yMax)
  }

  /** The brute-force selector: entries whose rectangle meets the window. */
  function Hits(b: Box): Entry<Rect> -> bool {
    (e: Entry<Rect>) => Intersects(e.value, b)
  }

  /**
   * The records `range_query` appends, as written: the node's record when
   * its rectangle meets the window, then the left subtree's when
   * `x1 >= x_min`, then the right subtree's when `x2 <= x_max`.
   */
  function Visible(t: Tree<Rect>, b: Box): (r: seq<Entry<Rect>>)
    ensures |r| <= Size(t)
    decreases t
  {
    if t.Empty? then []
    else
      var v := t.value;
      (if Intersects(v, b) then [EntryOf(t)] else [])
      + (if t.left.Branch? && v.x1 >= b.xMin then Visible(t.left, b) else [])
      + (if t.right.Branch? && v.x2 <= b.xMax then Visible(t.right, b) else [])
  }

  /**
   * `range_query(root, x_min, x_max, y_min, y_max, result)` as the source
   * runs it, threading the shared `result` list through the recursive
   * calls: the records of `Visible` are appended to `result`, which an
   * absent root returns unchanged.
   */
  method RangeQuery(root: Tree<Rect>, xMin: int, xMax: int, yMin: int, yMax: int, result: seq<Entry<Rect>> := [])
    returns (r: seq<Entry<Rect>>)
    ensures r == result + Visible(root, Box(xMin, xMax, yMin, yMax))
    ensures root.Empty? ==> r == result
    decreases root
  {
    r := result;
    if root.Empty? {
      return;
    }
    ghost var b := Box(xMin, xMax, yMin, yMax);
    var v := root.value;
    ghost var h := if Intersects(v, b) then [EntryOf(root)] else [];
    ghost var vl := if root.left.Branch? && v.x1 >= b.xMin then Visible(root.left, b) else [];
    ghost var vr := if root.right.Branch? && v.x2 <= b.xMax then Visible(root.right, b) else [];
    if !(v.x2 < xMin || v.x1 > xMax || v.y2 < yMin || v.y1 > yMax) {
      r := r + [EntryOf(root)];
    }
    assert r == result + h;
    if root.left.Branch? && v.x1 >= xMin {
      r := RangeQuery(root.left, xMin, xMax, yMin, yMax, r);
    }
    assert r == result + h + vl;
    if root.right.Branch? && v.x2 <= xMax {
      r := RangeQuery(root.right, xMin, xMax, yMin, yMax, r);
    }
    assert r == result + h + vl + vr;
    assert Visible(root, b) == h + vl + vr;
    Assoc4(result, h, vl, vr);
  }

  /**
   * Soundness of `range_query` as written: its records are records of the
   * tree whose rectangles meet the window, in preorder, each at most as
   * often as the tree holds it.
   */
  lemma {:induction false} VisibleSound(t: Tree<Rect>, b: Box)
    ensures Sub(Visible(t, b), Filter(Preorder(t), Hits(b)))
    decreases t
  {
    if t.Branch? {
      VisibleSound(t.left, b);
      VisibleSound(t.right, b);
      VisibleSoundStep(t, b);
    }
  }

  /** Every record `range_query` appends as written is a record of the tree whose rectangle meets the window. */
  lemma VisibleRecordsHit(t: Tree<Rect>, b: Box, e: Entry<Rect>)
    requires e in Visible(t, b)
    ensures e in Preorder(t) && Intersects(e.value, b)
  {
    VisibleSound(t, b);
    SubMembers(Visible(t, b), Filter(Preorder(t), Hits(b)));
    FilterMembers(Preorder(t), Hits(b), e);
  }

  /** The step of `VisibleSound` at a node, from the claim for both subtrees. */
  lemma VisibleSoundStep(t: Tree<Rect>, b: Box)
    requires t.Branch?
    requires Sub(Visible(t.left, b), Filter(Preorder(t.left), Hits(b)))
    requires Sub(Visible(t.right, b), Filter(Preorder(t.right), Hits(b)))
    ensures Sub(Visible(t, b), Filter(Preorder(t), Hits(b)))
  {
    var v, e, p := t.value, EntryOf(t), Hits(b);
    var pl, pr := Preorder(t.left), Preorder(t.right);
    var h := if Intersects(v, b) then [e] else [];
    var vl := if t.left.Branch? && v.x1 >= b.xMin then Visible(t.left, b) else [];
    var vr := if t.right.Branch? && v.x2 <= b.xMax then Visible(t.right, b) else [];
    assert Visible(t, b) == h + vl + vr;
    PreorderFilter(t, p);
    FilterSingle(e, p);
    SubRefl(h);
    SubConcat(h, Filter([e], p), vl, Filter(pl, p));
    SubConcat(h + vl, Filter([e], p) + Filter(pl, p), vr, Filter(pr, p));
  }

  /**
   * Left pruning misses obstacles: a wide rectangle to the left of the
   * root's corner reaches into the window, but the root's `x1` is below
   * `x_min`, so the left subtree is skipped.
   */
  lemma VisibleMissesLeft()
    ensures var t := Branch(Leaf(Rect(0, 0, 20, 1), "roca"), Rect(10, 0, 12, 1), "cono", 2, Empty, None);
      var b := Box(15, 30, 0, 5);
      IsAvl(t, RectKey) &&
      Visible(t, b) == [] &&
      Filter(Preorder(t), Hits(b)) == [Entry(Rect(0, 0, 20, 1), "roca")]
  {
    var l := Leaf(Rect(0, 0, 20, 1), "roca");
    var t := Branch(l, Rect(10, 0, 12, 1), "cono", 2, Empty, None);
    var b := Box(15, 30, 0, 5);
    assert Preorder(t) == [EntryOf(t), EntryOf(l)];
    FilterConcat([EntryOf(t)], [EntryOf(l)], Hits(b));
    FilterSingle(EntryOf(t), Hits(b));
    FilterSingle(EntryOf(l), Hits(b));
  }

  /**
   * Right pruning misses obstacles: the root's rectangle is wider than the
   * window (`x2 > x_max`), so the right subtree is skipped although its
   * rectangle lies inside the window.
   */
  lemma VisibleMissesRight()
    ensures var t := Branch(Empty, Rect(0, 0, 100, 1), "roca", 2, Leaf(Rect(5, 0, 6, 1), "cono"), None);
      var b := Box(0, 10, 0, 5);
      IsAvl(t, RectKey) &&
      Visible(t, b) == [Entry(Rect(0, 0, 100, 1), "roca")] &&
      Filter(Preorder(t), Hits(b)) == [Entry(Rect(0, 0, 100, 1), "roca"), Entry(Rect(5, 0, 6, 1), "cono")]
  {
    var r := Leaf(Rect(5, 0, 6, 1), "cono");
    var t := Branch(Empty, Rect(0, 0, 100, 1), "roca", 2, r, None);
    var b := Box(0, 10, 0, 5);
    assert Preorder(t) == [EntryOf(t), EntryOf(r)];
    FilterConcat([EntryOf(t)], [EntryOf(r)], Hits(b));
    FilterSingle(EntryOf(t), Hits(b));
    FilterSingle(EntryOf(r), Hits(b));
  }

  /**
   * The pruning the ordering on `(x1, y1)` allows: a left subtree can
   * always hold a rectangle reaching into the window, so it is always
   * visited; a right subtree only holds corners at or after the node's,
   * so it is skipped exactly when the node's `x1` is beyond `x_max`.
   */
  function VisibleFixed(t: Tree<Rect>, b: Box): (r: seq<Entry<Rect>>)
    ensures |r| <= Size(t)
    decreases t
  {
    if t.Empty? then []
    else
      (if Intersects(t.value, b) then [EntryOf(t)] else [])
      + VisibleFixed(t.left, b)
      + (if t.value.x1 <= b.xMax then VisibleFixed(t.right, b) else [])
  }

  /** With the corrected pruning the query returns exactly the brute-force filter, in preorder. */
  lemma {:induction false} VisibleFixedExact(t: Tree<Rect>, b: Box)
    requires Ordered(t, RectKey)
    ensures VisibleFixed(t, b) == Filter(Preorder(t), Hits(b))
    decreases t
  {
    if t.Branch? {
      var e := EntryOf(t);
      var pl, pr := Preorder(t.left), Preorder(t.right);
      VisibleFixedExact(t.left, b);
      VisibleFixedExact(t.right, b);
      PreorderFilter(t, Hits(b));
      FilterSingle(e, Hits(b));
      if t.value.x1 > b.xMax {
        RightBeyondWindow(t, b);
      }
    }
  }

  /** When the node's `x1` is beyond `x_max`, no rectangle in its right subtree meets the window. */
  lemma RightBeyondWindow(t: Tree<Rect>, b: Box)
    requires t.Branch? && Ordered(t, RectKey) && t.value.x1 > b.xMax
    ensures Filter(Preorder(t.right), Hits(b)) == []
  {
    var pr := Preorder(t.right);
    PreorderKeys(t.right, RectKey);
    forall i | 0 <= i < |pr|
      ensures !Hits(b)(pr[i])
    {
      assert RectKey(pr[i].value) in Keys(t.right, RectKey);
    }
    FilterNone(pr, Hits(b));
  }

  /** `range_query` with the corrected pruning, threading `result` like the source. */
  method RangeQueryFixed(root: Tree<Rect>, xMin: int, xMax: int, yMin: int, yMax: int, result: seq<Entry<Rect>> := [])
    returns (r: seq<Entry<Rect>>)
    ensures r == result + VisibleFixed(root, Box(xMin, xMax, yMin, yMax))
    ensures root.Empty? ==> r == result
    decreases root
  {
    r := result;
    if root.Empty? {
      return;
    }
    var v := root.value;
    if !(v.x2 < xMin || v.x1 > xMax || v.y2 < yMin || v.y1 > yMax) {
      r := r + [EntryOf(root)];
    }
    ghost var b := Box(xMin, xMax, yMin, yMax);
    ghost var h := if Intersects(v, b) then [EntryOf(root)] else [];
    ghost var vl := VisibleFixed(root.left, b);
    ghost var vr := if v.x1 <= b.xMax then VisibleFixed(root.right, b) else [];
    assert r == result + h;
    r := RangeQueryFixed(root.left, xMin, xMax, yMin, yMax, r);
    assert r == result + h + vl;
    if v.x1 <= xMax {
      r := RangeQueryFixed(root.right, xMin, xMax, yMin, yMax, r);
    }
    assert r == result + h + vl + vr;
    assert VisibleFixed(root, b) == h + vl + vr;
    Assoc4(result, h, vl, vr);
  }
}
