/**
 * The tree node record of models/node.py, shared by the rectangle tree
 * (models/avl.py) and the point tree (models/tree.py).
 *
 * A node holds a stored value, its obstacle label, its height and two
 * optional children.  Here a node and everything below it is one
 * immutable `Tree` value; the operations that reassign node fields in the
 * source return the new tree instead.
 */
module Nodes {
  import opened Wrappers

  /** The record a traversal yields for a node: its stored value and its label. */
  datatype Entry<V> = Entry(value: V, tipo: string)

  /**
   * A possibly absent subtree: its nodes' fields, including the stored
   * heights.  `typeAttr` is the attribute `type`, which a node lacks when
   * created (`None`) and which only deletion sets.
   */
  datatype Tree<V> =
    | Empty
    | Branch(left: Tree<V>, value: V, tipo: string, height: nat, right: Tree<V>, typeAttr: Option<string>)

  /** `Node(value, tipe)`: a new node is a leaf of height 1 holding the value and the label as given. */
  function Leaf<V>(value: V, tipe: string): (t: Tree<V>)
    ensures t.Branch? && t.left.Empty? && t.right.Empty?
    ensures t.value == value && t.tipo == tipe && t.height == 1 && t.typeAttr == None
  {
    Branch(Empty, value, tipe, 1, Empty, None)
  }
}
