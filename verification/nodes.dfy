/** The tree's node: a rectangle, its average colour and four child slots. */
module Nodes {
  import opened Wrappers
  import opened Geometry
  import opened Pixels

  /** A node: its rectangle, its average colour and its four child slots. */
  datatype Node = Node(rect: Rect, avg: Pixel, nw: Option<Node>, ne: Option<Node>, sw: Option<Node>, se: Option<Node>) {

    predicate IsLeaf() {
      nw.None? && ne.None? && sw.None? && se.None?
    }
  }
}
