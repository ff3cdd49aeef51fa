/** The heap cells of src/tree.hh, with the template parameter fixed to FILE_ITEM, the only
    type the repository instantiates it with. */
module Nodes {

  datatype Option<+T> = None | Some(value: T)

  type Byte = b: int | 0 <= b < 256

  /** FILE_ITEM (src/FileTable.h): the path component (or, for a top-level node, the whole
      root path) and the handle buffer. A placeholder child has no handle. */
  datatype Item = Item(path: string, handle: Option<seq<Byte>>)

  const NO_ITEM := Item("", None)

  /** The value of one tree node: its five links and its data. */
  datatype Cell = Cell(parent: Node?, first: Node?, last: Node?, prev: Node?, next: Node?, data: Item)

  /** tree_node_<FILE_ITEM>. */
  class Node {
    var parent: Node?
    var firstChild: Node?
    var lastChild: Node?
    var prevSibling: Node?
    var nextSibling: Node?
    var data: Item

    constructor (x: Item)
      ensures parent == firstChild == lastChild == prevSibling == nextSibling == null
      ensures data == x
    {
      parent, firstChild, lastChild, prevSibling, nextSibling := null, null, null, null, null;
      data := x;
    }

    ghost function Value(): Cell
      reads this
    {
      Cell(parent, firstChild, lastChild, prevSibling, nextSibling, data)
    }
  }
}
