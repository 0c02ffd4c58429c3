/**
 * Integer points and inclusive rectangles as the quadtree uses them: a
 * rectangle is a pair of corners, upper-left and lower-right, both of which
 * belong to it.
 */
module Geometry {

  /** The range of the source's `unsigned int`. */
  type U32 = x: nat | x < 0x1_0000_0000

  datatype Point = Point(x: nat, y: nat)

  datatype Rect = Rect(ul: Point, lr: Point) {

    /** The corners are ordered on both axes, so the rectangle holds a pixel. */
    predicate Valid() {
      ul.x <= lr.x && ul.y <= lr.y
    }

    /** A single pixel: the base case of construction. */
    predicate IsUnit() {
      ul == lr
    }

    /** The number of columns minus one (the source's `nodeWidth`). */
    function WidthExtent(): nat
      requires Valid()
    {
      lr.x - ul.x
    }

    /** The number of rows minus one (the source's `nodeHeight`). */
    function HeightExtent(): nat
      requires Valid()
    {
      lr.y - ul.y
    }

    function Columns(): nat
      requires Valid()
    {
      WidthExtent() + 1
    }

    function Rows(): nat
      requires Valid()
    {
      HeightExtent() + 1
    }

    /** The number of pixels, the weight a child carries in an average. */
    function Area(): (a: nat)
      requires Valid()
      ensures a >= 1
      ensures a == 1 <==> IsUnit()
    {
      assert Columns() * Rows() >= Columns();
      Columns() * Rows()
    }

    predicate Contains(p: Point) {
      ul.x <= p.x <= lr.x && ul.y <= p.y <= lr.y
    }

    /** `inner` is a well-formed rectangle lying inside this one. */
    predicate Encloses(inner: Rect) {
      && inner.Valid()
      && ul.x <= inner.ul.x && inner.lr.x <= lr.x
      && ul.y <= inner.ul.y && inner.lr.y <= lr.y
    }
  }

  /** Unsigned 32-bit `v - 1`, which wraps to 4294967295 at zero. */
  function Pred32(v: U32): (r: U32)
    ensures v >= 1 ==> r + 1 == v
    ensures v == 0 ==> r == 0xFFFF_FFFF
  {
    (v + 0xFFFF_FFFF) % 0x1_0000_0000
  }

  /**
   * The root rectangle of the tree, (0,0)-(width-1, height-1), with the
   * subtraction done on unsigned coordinates.
   */
  function RootRect(width: U32, height: U32): (r: Rect)
    ensures r.ul == Point(0, 0) && r.Valid()
    ensures width >= 1 && height >= 1 ==> r.Columns() == width && r.Rows() == height
    ensures width >= 1 && height >= 1 ==> forall p :: r.Contains(p) <==> p.x < width && p.y < height
    ensures r.IsUnit() <==> width == 1 && height == 1
  {
    Rect(Point(0, 0), Point(Pred32(width), Pred32(height)))
  }

  /**
   * For an image with no columns the root rectangle does not collapse: its
   * right edge wraps round to column 4294967295, so it claims pixels of an
   * image that has none.
   */
  lemma RootRectUnderflows(width: U32, height: U32)
    requires width == 0
    ensures RootRect(width, height).lr.x == 0xFFFF_FFFF
    ensures RootRect(width, height).Contains(Point(0, 0))
    ensures !RootRect(width, height).IsUnit()
  {
  }
}
