# Juego del carro: the obstacle trees and the car, in Dafny

The game drives a car along three lanes. Obstacles sit in an AVL tree. Each
tick, the game asks the tree which obstacles fall in a window ahead of the car.
This project models the parts of the game that carry logic:

- **The rectangle tree** (`models/avl.py`). An AVL tree of obstacle
  rectangles `(x1, y1, x2, y2)`, each with a label `tipo`, ordered
  lexicographically on the corner `(x1, y1)`. Its operations are:
  - insert, with the four rotation cases;
  - delete, which copies the in-order successor into the node;
  - search on the whole tuple;
  - `get_min`;
  - four traversals;
  - a pruned rectangle-intersection range query.
- **The point tree** (`models/tree.py`). The same AVL code over points
  `(x, y)`, with its own search and a point-containment range query. It has
  no delete.
- **The node record** (`models/node.py`).
- **The car** (`app/car.py`):
  - the lane, clamped to 0..2;
  - the forward position;
  - energy lost in collisions;
  - the rise-and-fall jump.

## Layout

| file | module | contents |
|---|---|---|
| `wrappers.dfy` | `Wrappers` | `Option` |
| `nodes.dfy` | `Nodes` | the node record, `Entry` (a node's value and label) |
| `avl_spec.dfy` | `AvlSpec` | `compare`, heights, rotations, the traversals, BST order / balance / height invariants |
| `avl_insert.dfy` | `AvlInsert` | `insert` and its rebalancing |
| `avl_delete.dfy` | `AvlDelete` | `get_min`, `delete` and its rebalancing, the entries `delete` leaves as written and corrected |
| `seqs.dfy` | `Seqs` | the brute-force filter a range query is compared with; subsequences |
| `traversals.dfy` | `Traversals` | each traversal visits every node; `bfs` as a queue loop |
| `rect_tree.dfy` | `RectTree` | what is specific to `models/avl.py`: rectangles, search, range query |
| `point_tree.dfy` | `PointTree` | what is specific to `models/tree.py`: points, search, range query |
| `car.dfy` | `Cars` | the `Car` class and its step rules |

### How the trees are modelled

Both Python trees update node fields in place. The point tree only ever
writes `left`, `right` and `height`; the rectangle tree's `delete` also
writes `value` and adds a `type` attribute. Every operation returns the
root of the new subtree, and the caller stores it back into the parent. No
node is ever shared. Here a subtree is therefore an immutable `Tree` value,
and each operation is a function returning the new subtree.

- The rotations recompute exactly the two heights the source recomputes.
- The rebalancing cases are tried in the source's order.
- Heights are the stored `height` fields.

The source's loops are imperative methods over these values, proved against
specification functions:

- `GetMin` walks `current.left`;
- `Bfs` pops the front of a list queue and appends children;
- `RangeQuery` threads the shared `result` list through its recursive calls;
  as in the source, `result` defaults to an empty list.

Each function of the source has one Dafny definition:

| source | Dafny |
|---|---|
| `get_height`, `get_balance`, `_update_height` (models/avl.py:14-21, models/tree.py:11-17) | `AvlSpec.Height`, `AvlSpec.Balance`, `AvlSpec.Fix` |
| `right_rotate`, `left_rotate` (models/avl.py:24-40, models/tree.py:19-43) | `AvlSpec.RotateRight`, `AvlSpec.RotateLeft` |
| `compare` (models/avl.py:43-56, models/tree.py:46-59) | `AvlSpec.Compare`, keyed by `RectTree.RectKey` / `PointTree.PointKey` |
| `insert` (models/avl.py:59-94, models/tree.py:62-97) | `AvlInsert.Insert`, rotations in `AvlInsert.RebalanceInsert` |
| `search` (models/avl.py:97-105, models/tree.py:100-110) | `RectTree.Search`, `PointTree.Search` |
| `get_min` (models/avl.py:108-112) | `AvlDelete.Leftmost`, and the loop `AvlDelete.GetMin` |
| `delete` (models/avl.py:115-152) | `AvlDelete.Delete`, with `AvlDelete.TakeSuccessor` for lines 133-136 and `AvlDelete.RebalanceDelete` for lines 138-152 |
| `inorder`, `preorder`, `postorder` (models/avl.py:155-171, models/tree.py:113-132) | `AvlSpec.Inorder`, `AvlSpec.Preorder`, `AvlSpec.Postorder` |
| `bfs` (models/avl.py:173-183, models/tree.py:134-145) | `Traversals.LevelOrder` = `Traversals.BfsFrom` of the one-node queue, and the loop `Traversals.Bfs` |
| `range_query` (models/avl.py:186-207) | `RectTree.Visible`, and the recursive method `RectTree.RangeQuery` |
| `range_query` (models/tree.py:148-165) | `PointTree.Found`, and the recursive method `PointTree.RangeQuery` |

The two trees share one AVL core. It is generic in the stored value and takes
the ordering key as a parameter: `(x1, y1)` for rectangles, `(x, y)` for
points. The rotations, `insert` and the traversals of `models/tree.py`
(lines 11-43, 62-97 and 113-145) are textually the same algorithms as those of
`models/avl.py`, so the same functions model both.

The invariant the public operations maintain is `IsAvl`:

- keys in binary-search order;
- every balance factor in -1..1;
- every stored height equal to one more than the larger child height.

`Insert` and `DeleteCorrect` prove that each operation keeps `IsAvl`.

### How the car is modelled

`Car` is a class with the source's nine fields. Each method states the whole
new state as one value, `State()`, built from the old one. The pure functions
`Up`, `Down`, `StartJump`, `StepJump` and `EnergyLoss` are the rules those
methods follow. The lemmas about jumps (`Rising`, `Lands`, `JumpLands`,
`JumpPath`) are about repeated `StepJump`.

## Model

| member | source | states |
|---|---|---|
| Nodes.Leaf | models/node.py:3-12 | a new node stores the value and label as given, has height 1, no children and no `type` attribute |
| AvlSpec.Compare | models/avl.py:43-56 | 0 exactly on equal keys; negative exactly when the first key is lexicographically below (x first, then y); positive exactly when above; always -1, 0 or 1 |
| AvlSpec.BelowIsStrictTotalOrder | models/avl.py:46-56 | the order `compare` decides is irreflexive, asymmetric, transitive and total |
| AvlSpec.HeightIsDepth | models/avl.py:20-21 | when every stored height was set by `_update_height`, a node's stored height is the real height of its subtree |
| AvlSpec.InorderSorted | models/avl.py:155-159 | on an ordered tree `inorder` yields keys in strictly increasing order, and each key it yields is stored in the tree |
| AvlSpec.RotateRightKeepsOrder | models/avl.py:24-31 | `right_rotate` keeps the in-order sequence and the key set, and keeps an ordered tree ordered |
| AvlSpec.RotateLeftKeepsOrder | models/avl.py:33-40 | `left_rotate` keeps the in-order sequence and the key set, and keeps an ordered tree ordered |
| AvlSpec.RotateRightRebalances | models/avl.py:79-81 | a node left-heavy by 2 whose left child is not right-heavy becomes an AVL tree under `right_rotate`, with the resulting height given exactly |
| AvlSpec.RotateLeftRebalances | models/avl.py:82-84 | the mirror case: a node right-heavy by 2 whose right child is not left-heavy becomes an AVL tree under `left_rotate` |
| AvlSpec.RotateLeftRightRebalances | models/avl.py:85-88 | left-heavy by 2 with a right-leaning left child: the double rotation gives an AVL tree with the same in-order sequence and keys, and one level lower |
| AvlSpec.RotateRightLeftRebalances | models/avl.py:89-92 | the mirror double rotation: an AVL tree with the same in-order sequence and keys, one level lower |
| AvlInsert.RebalanceInsert | models/avl.py:76-94 | after one insertion below a node, the four cases restore AVL and keep the in-order sequence; a node whose balance is already in -1..1 is returned unchanged; a rotation lowers the node by one |
| AvlInsert.Insert | models/avl.py:59-94 | `insert` on an AVL tree gives an AVL tree whose key set gains exactly the new key; its height grows by at most one |
| AvlInsert.InsertPresent | models/avl.py:72-74 | inserting a key already stored returns the tree unchanged; the stored value and label are not overwritten |
| AvlInsert.InsertAdds | models/avl.py:64-71 | inserting a new key adds exactly one node, holding the given value and label, and removes none |
| AvlDelete.LeftmostIsMinimum | models/avl.py:108-112 | the node `get_min` reaches holds the smallest key of the subtree |
| AvlDelete.Leftmost | models/avl.py:108-112 | the node `get_min` stops at lies in the given subtree and has no left child |
| AvlDelete.GetMin | models/avl.py:108-112 | the `while current.left` loop ends at the leftmost node, which has no left child and is the first node in order |
| AvlDelete.RebalanceDeleteAvl | models/avl.py:138-152 | the deletion rebalancing, chosen by the sign of the heavy child's balance, restores AVL for any balance in -2..2 and keeps the key set; a node already balanced is unchanged; the height drops by at most one |
| AvlDelete.TakeSuccessor | models/avl.py:133-136 | the two-child case copies the successor's value; as written its label goes to a new `type` attribute and `tipo` keeps the deleted node's label; with relabelling, the successor's label goes to `tipo` |
| AvlDelete.RebalanceDelete | models/avl.py:138-152 | whichever of the four rotation cases applies after a deletion, the in-order sequence is unchanged |
| AvlDelete.DeleteCorrect | models/avl.py:115-152 | `delete` on an AVL tree gives an AVL tree whose key set loses exactly the deleted key; its height shrinks by at most one |
| AvlDelete.DeleteAbsent | models/avl.py:119-126 | deleting a key that is not stored returns the tree unchanged |
| AvlDelete.DeleteRemovesEntry | models/avl.py:115-152 | with the successor's label moved along with its value, the in-order sequence after `delete` is the old one with the deleted key's node removed and nothing else changed |
| AvlDelete.DeleteAsWritten | models/avl.py:115-152 | for every ordered tree, `delete` as written leaves the old in-order entries without the deleted key, except that when the deleted node had two children its successor's entry carries the deleted node's label instead of its own |
| AvlDelete.AsWrittenVsCorrected | models/avl.py:133-136 | as written and corrected, `delete` leaves the same values in the same order; the labels differ only at the successor's entry, and only when the deleted node had two children |
| AvlDelete.RelabelAt | models/avl.py:134-135 | the relabelling that describes the as-written result changes the label of exactly the entries with the successor's key and leaves every value and position as it was |
| AvlDelete.DeleteRelabelMembers | models/avl.py:115-152 | with relabelling, a node is in the tree after `delete` exactly when it was there before and its key is not the deleted one |
| Traversals.TraversalsVisitEveryNode | models/avl.py:155-171 | `inorder`, `preorder` and `postorder` each yield every node of the tree exactly once |
| Traversals.TraversalLengths | models/avl.py:155-171 | the three traversals yield as many nodes as the tree has |
| Traversals.InorderNoRepeats | models/avl.py:155-159 | on an ordered tree `inorder` never yields the same entry twice |
| Traversals.PreorderFilter | models/avl.py:161-165 | the matches in the preorder of a node are the node's own match, then the left subtree's, then the right subtree's |
| Traversals.BfsFrom | models/avl.py:176-183 | the queue loop, started from a queue of nodes, yields exactly one entry per node of the queued subtrees |
| Traversals.Bfs | models/avl.py:173-183 | the queue loop yields exactly `LevelOrder(root)`, and nothing for an absent root |
| Traversals.BfsIsLevelByLevel | models/avl.py:173-183 | the queue order is level by level: the roots of the queue, then their children in queue order, and so on |
| Traversals.LevelOrderVisitsEveryNode | models/avl.py:173-183 | `bfs` yields every node exactly once |
| Traversals.LevelOrderStartsAtRoot | models/avl.py:176-183 | `bfs` yields the root first, then the levels below it, left before right |
| RectTree.CompareRects | models/avl.py:43-56 | rectangles compare on `(x1, y1)` alone: 0 exactly when both corners agree, whatever `x2` and `y2` are |
| RectTree.InsertObstacle | models/avl.py:59-94 | inserting an obstacle keeps the tree AVL and adds its corner; a corner already present leaves the tree unchanged; a new one adds exactly its record |
| RectTree.DeleteObstacle | models/avl.py:115-152 | deleting an obstacle, with relabelling, keeps the tree AVL, removes its corner and exactly its record, and leaves the tree unchanged when the corner is absent |
| RectTree.DeleteKeepsStaleLabel | models/avl.py:133-136 | as written, deleting a two-child node leaves the successor's rectangle under the deleted node's label; the corrected delete keeps the successor's own label |
| RectTree.Search | models/avl.py:97-105 | a node is returned only when its stored tuple equals the whole search key; that tuple is stored in the tree, and the node returned is a subtree of the tree, so its label and children are the stored ones |
| RectTree.SearchFindsStored | models/avl.py:97-105 | on an ordered tree, `search` finds a tuple exactly when that whole tuple is stored |
| RectTree.SearchNeedsWholeTuple | models/avl.py:100-105 | a key whose corner is stored under different `(x2, y2)` is not found |
| RectTree.Visible | models/avl.py:196-205 | the records the pruned query reports, as written: at most one per node of the tree |
| RectTree.RangeQuery | models/avl.py:186-207 | the recursive query appends the records of `Visible` to the shared `result` list, empty by default; an absent root returns `result` unchanged |
| RectTree.VisibleSound | models/avl.py:196-205 | every record reported is a stored rectangle meeting the window, reported in preorder: the answer is a subsequence of the brute-force filter |
| RectTree.VisibleRecordsHit | models/avl.py:198-199 | each reported record is a node of the tree whose rectangle meets the window |
| RectTree.VisibleMissesLeft | models/avl.py:202-203 | an AVL tree and window where pruning the left subtree on `x1 >= x_min` misses a wide rectangle that meets the window |
| RectTree.VisibleMissesRight | models/avl.py:204-205 | an AVL tree and window where pruning the right subtree on `x2 <= x_max` misses a rectangle that meets the window |
| RectTree.VisibleFixedExact | models/avl.py:201-205 | always visiting the left subtree, and visiting the right one exactly when `x1 <= x_max`, reports exactly the brute-force filter in preorder |
| RectTree.VisibleFixed | models/avl.py:196-205 | the records the query reports with corrected pruning: at most one per node of the tree |
| RectTree.RangeQueryFixed | models/avl.py:186-207 | the query with corrected pruning, threading `result` (empty by default), appends exactly the records of `VisibleFixed` |
| PointTree.ComparePoints | models/tree.py:46-59 | lexicographic on `x`, then `y`; 0 exactly on equal points |
| PointTree.InsertPoint | models/tree.py:62-97 | inserting a point keeps the tree AVL; a point already stored is a no-op; a new point adds exactly its record |
| PointTree.SevenIncreasingInserts | models/tree.py:62-97 | inserting points 1..7 in increasing order gives the perfectly balanced AVL tree of height 3 with 7 nodes |
| PointTree.Search | models/tree.py:100-110 | a node is returned only when it holds exactly the searched point, which is then stored; the node returned is a subtree of the tree, with its stored label and children |
| PointTree.SearchFindsKey | models/tree.py:100-110 | on an ordered tree, `search` finds a point exactly when it is stored |
| PointTree.Found | models/tree.py:156-163 | the records the pruned point query reports: at most one per node of the tree |
| PointTree.RangeQuery | models/tree.py:148-165 | the recursive query appends the records of `Found` to the shared `result` list, empty by default; an absent root returns `result` unchanged |
| PointTree.FoundExact | models/tree.py:156-163 | on an ordered tree the pruning on `x >= x_min` and `x <= x_max` never skips a match: the answer is exactly the brute-force filter in preorder |
| PointTree.FoundMembers | models/tree.py:148-165 | on an ordered tree a record is reported exactly when it is stored and its point lies in the window |
| Cars.Up | app/car.py:19-22 | `move_up` keeps the lane in 0..2, and raises it by exactly one unless it is already the top lane, when nothing changes |
| Cars.Down | app/car.py:24-27 | `move_down` keeps the lane in 0..2, and lowers it by exactly one unless it is already the bottom lane, when nothing changes |
| Cars.UpThenDown | app/car.py:19-27 | below the top lane, moving up and then down returns to the same lane |
| Cars.DownThenUp | app/car.py:19-27 | above the bottom lane, moving down and then up returns to the same lane |
| Cars.StartJump | app/car.py:29-34 | `jump` leaves a car that is already jumping unchanged; a car on the ground starts jumping with `jump_height` ticks at offset 0 |
| Cars.StepJump | app/car.py:36-48 | `update_jump` does nothing on the ground; while ticks remain it rises by 6 and uses up one tick; otherwise, with ticks unchanged, it falls by exactly 6 while the offset stays above 0, and lands at offset 0 exactly when the offset would reach 0 or less |
| Cars.RunKeepsJumpOk | app/car.py:36-48 | after any number of updates the offset is never negative, and it is 0 whenever the car is on the ground |
| Cars.Rising | app/car.py:39-42 | while ticks remain, k updates raise the offset by 6k and use up k ticks |
| Cars.Lands | app/car.py:43-48 | with no ticks left, a car 6m pixels up lands after exactly m updates |
| Cars.JumpLands | app/car.py:29-48 | a jump from the ground lands after `2 * jump_height` updates, or after 1 update when `jump_height <= 0` |
| Cars.JumpPath | app/car.py:36-48 | in flight the offset rises by 6 per update to the peak of `6 * jump_height`, then falls back by 6 per update |
| Cars.Label | app/car.py:56 | the obstacle's `tipo`, or `"obstaculo"` when it has none |
| Cars.EnergyLoss | app/car.py:57-68 | a collision costs between 5 and 50; 5 exactly for labels other than roca, hueco, cono, aceite and peaton; 50 exactly for a pedestrian |
| Cars.Car.constructor | app/car.py:2-13 | a new car is at `x = 0` in the middle lane, on the ground with no ticks and offset 0, keeping the given color, energy, speed and jump height, which default to "blue", 100, 5 and 10 |
| Cars.Car.MoveForward | app/car.py:15-17 | `x` grows by `speed` and nothing else changes |
| Cars.Car.MoveUp | app/car.py:19-22 | the lane becomes `Up` of the old lane and nothing else changes; the lane stays in 0..2 |
| Cars.Car.MoveDown | app/car.py:24-27 | the lane becomes `Down` of the old lane and nothing else changes; the lane stays in 0..2 |
| Cars.Car.Jump | app/car.py:29-34 | the jump fields become `StartJump` of the old ones and nothing else changes |
| Cars.Car.UpdateJump | app/car.py:36-48 | the jump fields become `StepJump` of the old ones and nothing else changes; the offset stays non-negative |
| Cars.Car.IconKey | app/car.py:50-52 | `"car_jump"` exactly while jumping, `"car"` exactly while not |
| Cars.Car.Collide | app/car.py:54-68 | energy drops by `EnergyLoss` of the obstacle's label, with no floor; nothing else changes |

## Left out

- The in-place field updates and node identity of both trees are left out. Subtrees are values, so the model does not capture sharing or that `insert` returns the very node it was given. No node is shared in the source, so the values model computes the same trees.
- Python generators in the traversals: the traversals are sequences. The order is kept; the laziness is not.
- The `TypeError` that `compare` raises on non-tuples (models/avl.py:44-45) is excluded by typing. Values are always `Rect` or `Point`.
- The traversals (`inorder`, `preorder`, `postorder`, `bfs`) yield node objects in the source, and here they yield each node's `Entry`: its value and `tipo`. The node's stored `height` and the `type` attribute that `delete` adds (`typeAttr` here) are therefore not visible in a traversal's result, though `Delete` and `TakeSuccessor` keep and state them.
- The dictionaries `range_query` of `models/avl.py` appends (`x1`, `y1`, `x2`, `y2`, `tipo`) are the node's `Entry`: its rectangle and label. The point tree appends the node itself; its `Entry` is used there too.
- The `AVLTree` classes' `root` field is left out. Their methods take and return roots, and the root field is only written by callers outside the core.
- `Collide` takes the obstacle as a map from strings to strings. Other value types in the obstacle dictionary are not modelled.
- Energy is an unbounded integer. Python ints are unbounded too; the floating-point energy bar of `main/main.py` is not part of this model.
- `main/main.py` (tkinter GUI, image loading, timer-driven game loop), `app/config_manager.py` (JSON file I/O) and `app/app.py` (glue around `insert` and `collide`) are not part of this model.
- PointTree.SevenIncreasingInserts: proved for points `(1, 0)` to `(7, 0)` under any single label, not for every increasing sequence of seven points.

## Findings

| source | as written | input that shows it | evidently intended | confidence | as-written member | corrected member |
|---|---|---|---|---|---|---|
| models/avl.py:134-135 | deleting a node with two children copies the successor's value into the node, but stores the successor's label in a new attribute `type`; `tipo`, which the traversals and the range query report, keeps the deleted obstacle's label | tree `(5,0,6,1)` "roca" with children `(1,0,2,1)` "cono" and `(9,0,10,1)` "hueco"; delete `(5,0,6,1)`: in-order becomes [`(1,0,2,1)` "cono", `(9,0,10,1)` "roca"] | the successor's label moves with its rectangle, so in-order becomes [`(1,0,2,1)` "cono", `(9,0,10,1)` "hueco"] | not executed | AvlDelete.DeleteAsWritten | RectTree.DeleteObstacle |
| models/avl.py:202-203 | the left subtree is visited only when the node's `x1 >= x_min`, but a left-subtree rectangle with a smaller `x1` can still reach into the window through its `x2` | root `(10,0,12,1)` "cono" with left child `(0,0,20,1)` "roca", window x 15..30, y 0..5: nothing is reported, though the left rectangle meets the window | every stored rectangle meeting the window is reported | not executed | RectTree.VisibleMissesLeft | RectTree.VisibleFixedExact |
| models/avl.py:204-205 | the right subtree is visited only when the node's `x2 <= x_max`, but the right subtree's order holds `x1` at or after the node's, not `x2` | root `(0,0,100,1)` "roca" with right child `(5,0,6,1)` "cono", window x 0..10, y 0..5: only the root is reported | the right subtree is skipped only when the node's `x1 > x_max` | not executed | RectTree.VisibleMissesRight | RectTree.VisibleFixedExact |
