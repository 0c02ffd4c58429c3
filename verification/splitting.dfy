/**
 * One split step of construction: the child rectangles a node's rectangle is
 * divided into. `SplitAsWritten` follows the source's arithmetic; `Split`
 * is the partition its documentation describes, and is what the rest of the
 * model builds with.
 */
module Splitting {
  import opened Wrappers
  import opened Geometry

  /** The child rectangles of one step, by slot; `None` is a null child. */
  datatype Children = Children(nw: Option<Rect>, ne: Option<Rect>, sw: Option<Rect>, se: Option<Rect>) {

    predicate AllNull() {
      nw.None? && ne.None? && sw.None? && se.None?
    }
  }

  predicate SlotWithin(o: Option<Rect>, parent: Rect) {
    o.Some? ==> parent.Encloses(o.value)
  }

  /** Every child is well-formed and lies inside the parent. */
  predicate AllWithin(c: Children, parent: Rect) {
    SlotWithin(c.nw, parent) && SlotWithin(c.ne, parent) && SlotWithin(c.sw, parent) && SlotWithin(c.se, parent)
  }

  function Hits(o: Option<Rect>, p: Point): nat {
    if o.Some? && o.value.Contains(p) then 1 else 0
  }

  /** How many children hold pixel `p`. */
  function Coverage(c: Children, p: Point): nat {
    Hits(c.nw, p) + Hits(c.ne, p) + Hits(c.sw, p) + Hits(c.se, p)
  }

  /**
   * Which slots are filled: none for a single pixel; only the northern pair
   * for a one-row rectangle; only the western pair for a one-column
   * rectangle; all four otherwise.
   */
  predicate SlotPattern(c: Children, r: Rect)
    requires r.Valid()
  {
    if r.IsUnit() then c.AllNull()
    else if r.HeightExtent() == 0 then c.nw.Some? && c.ne.Some? && c.sw.None? && c.se.None?
    else if r.WidthExtent() == 0 then c.nw.Some? && c.ne.None? && c.sw.Some? && c.se.None?
    else c.nw.Some? && c.ne.Some? && c.sw.Some? && c.se.Some?
  }

  /**
   * Each slot sits in its own corner of the parent: NW shares the parent's
   * upper-left corner, NE its top and right edges, SW its left and bottom
   * edges, SE its lower-right corner.
   */
  predicate Anchored(c: Children, r: Rect) {
    && (c.nw.Some? ==> c.nw.value.ul == r.ul)
    && (c.ne.Some? ==> c.ne.value.ul.y == r.ul.y && c.ne.value.lr.x == r.lr.x)
    && (c.sw.Some? ==> c.sw.value.ul.x == r.ul.x && c.sw.value.lr.y == r.lr.y)
    && (c.se.Some? ==> c.se.value.lr == r.lr)
  }

  /**
   * The documented children form one grid: a single split column separates
   * west from east in both rows, and a single split row separates north from
   * south in both columns, each split line belonging to the west/north side.
   */
  predicate Grid(c: Children) {
    && (c.nw.Some? && c.ne.Some? ==> c.ne.value.ul.x == c.nw.value.lr.x + 1 && c.ne.value.lr.y == c.nw.value.lr.y)
    && (c.nw.Some? && c.sw.Some? ==> c.sw.value.ul.y == c.nw.value.lr.y + 1 && c.sw.value.lr.x == c.nw.value.lr.x)
    && (c.se.Some? && c.ne.Some? && c.sw.Some? ==> c.se.value.ul.x == c.ne.value.ul.x && c.se.value.ul.y == c.sw.value.ul.y)
  }

  /**
   * The children as written share their split lines: NE starts on the column
   * where NW ends, SW starts on the row where NW ends, and SE starts where
   * both NE and SW do.
   */
  predicate SharedLines(c: Children) {
    && (c.nw.Some? && c.ne.Some? ==> c.ne.value.ul.x == c.nw.value.lr.x && c.ne.value.lr.y == c.nw.value.lr.y)
    && (c.nw.Some? && c.sw.Some? ==> c.sw.value.ul.y == c.nw.value.lr.y && c.sw.value.lr.x == c.nw.value.lr.x)
    && (c.se.Some? && c.ne.Some? && c.sw.Some? ==> c.se.value.ul.x == c.ne.value.ul.x && c.se.value.ul.y == c.sw.value.ul.y)
  }

  /**
   * An uneven split puts the extra column on the west side and the extra row
   * on the north side, and never more than one.
   */
  predicate ExtraLineFirst(c: Children, r: Rect)
    requires AllWithin(c, r)
  {
    && (c.nw.Some? && c.ne.Some? ==> 0 <= c.nw.value.Columns() - c.ne.value.Columns() <= 1)
    && (c.nw.Some? && c.sw.Some? ==> 0 <= c.nw.value.Rows() - c.sw.value.Rows() <= 1)
  }

  function ExtentSum(r: Rect): nat
    requires r.Valid()
  {
    r.WidthExtent() + r.HeightExtent()
  }

  predicate SlotShrinks(o: Option<Rect>, parent: Rect)
    requires parent.Valid() && SlotWithin(o, parent)
  {
    o.Some? ==> ExtentSum(o.value) < ExtentSum(parent)
  }

  /** Every child is strictly smaller than the parent, so recursion ends. */
  predicate Shrinks(c: Children, parent: Rect)
    requires parent.Valid() && AllWithin(c, parent)
  {
    SlotShrinks(c.nw, parent) && SlotShrinks(c.ne, parent) && SlotShrinks(c.sw, parent) && SlotShrinks(c.se, parent)
  }

  function SlotArea(o: Option<Rect>, parent: Rect): nat
    requires SlotWithin(o, parent)
  {
    if o.Some? then o.value.Area() else 0
  }

  /** The pixel counts of all children together. */
  function ChildrenArea(c: Children, parent: Rect): nat
    requires AllWithin(c, parent)
  {
    SlotArea(c.nw, parent) + SlotArea(c.ne, parent) + SlotArea(c.sw, parent) + SlotArea(c.se, parent)
  }

  /** Areas of side-by-side strips of equal height add up. */
  lemma FourBlocks(a: nat, b: nat, c: nat, d: nat)
    ensures a * c + b * c + a * d + b * d == (a + b) * (c + d)
  {
  }

  // ---------------------------------------------------------------------------
  // The split as the source computes it
  // ---------------------------------------------------------------------------

  /** Half an extent rounded up: the source's `splitW` and `splitH`. */
  function HalfUp(e: nat): (h: nat)
    ensures h + h == e || h + h == e + 1
  {
    e / 2 + (if e % 2 != 0 then 1 else 0)
  }

  /**
   * One step of construction as written: the NW child ends on the split
   * column (row) and the NE (SW) child starts on that same column (row).
   */
  function SplitAsWritten(r: Rect): (c: Children)
    requires r.Valid()
    ensures AllWithin(c, r)
    ensures SlotPattern(c, r)
    ensures Anchored(c, r)
    ensures SharedLines(c)
    ensures ExtraLineFirst(c, r)
    ensures !r.IsUnit() ==> !c.nw.value.IsUnit()
  {
    var splitW := HalfUp(r.WidthExtent());
    var splitH := HalfUp(r.HeightExtent());
    if r.WidthExtent() == 0 && r.HeightExtent() == 0 then
      Children(None, None, None, None)
    else if r.HeightExtent() == 0 then
      Children(Some(Rect(r.ul, Point(r.ul.x + splitW, r.lr.y))),
               Some(Rect(Point(r.ul.x + splitW, r.ul.y), r.lr)),
               None, None)
    else if r.WidthExtent() == 0 then
      Children(Some(Rect(r.ul, Point(r.lr.x, r.ul.y + splitH))),
               None,
               Some(Rect(Point(r.ul.x, r.ul.y + splitH), r.lr)),
               None)
    else
      Children(Some(Rect(r.ul, Point(r.ul.x + splitW, r.ul.y + splitH))),
               Some(Rect(Point(r.ul.x + splitW, r.ul.y), Point(r.lr.x, r.ul.y + splitH))),
               Some(Rect(Point(r.ul.x, r.ul.y + splitH), Point(r.ul.x + splitW, r.lr.y))),
               Some(Rect(Point(r.ul.x + splitW, r.ul.y + splitH), r.lr)))
  }

  /** The children as written cover exactly the parent's pixels. */
  lemma SplitAsWrittenCovers(r: Rect, p: Point)
    requires r.Valid() && !r.IsUnit()
    ensures Coverage(SplitAsWritten(r), p) >= 1 <==> r.Contains(p)
  {
  }

  /**
   * The children as written overlap: the pixel on the split column in the
   * top row lies in both NW and NE, and the pixel on the split row in the
   * left column lies in both NW and SW.
   */
  lemma SplitAsWrittenOverlaps(r: Rect)
    requires r.Valid() && !r.IsUnit()
    ensures r.WidthExtent() >= 1 ==>
      Coverage(SplitAsWritten(r), Point(r.ul.x + HalfUp(r.WidthExtent()), r.ul.y)) >= 2
    ensures r.HeightExtent() >= 1 ==>
      Coverage(SplitAsWritten(r), Point(r.ul.x, r.ul.y + HalfUp(r.HeightExtent()))) >= 2
  {
  }

  /**
   * When no extent exceeds one (a 2x1, 1x2 or 2x2 rectangle) the NW child
   * as written is the parent itself, so the recursion makes no progress.
   */
  lemma SplitAsWrittenKeepsParent(r: Rect)
    requires r.Valid() && !r.IsUnit()
    requires r.WidthExtent() <= 1 && r.HeightExtent() <= 1
    ensures SplitAsWritten(r).nw == Some(r)
  {
  }

  /** The children as written count the shared column or row twice, so their areas exceed the parent's. */
  lemma SplitAsWrittenAreaExceeds(r: Rect)
    requires r.Valid() && !r.IsUnit()
    ensures ChildrenArea(SplitAsWritten(r), r) > r.Area()
  {
  }

  /** The smallest case: splitting columns 0-1 of row 0 yields that same rectangle as NW. */
  lemma TwoByOneAsWritten()
    ensures SplitAsWritten(Rect(Point(0, 0), Point(1, 0))).nw == Some(Rect(Point(0, 0), Point(1, 0)))
    ensures SplitAsWritten(Rect(Point(0, 0), Point(1, 0))).ne == Some(Rect(Point(1, 0), Point(1, 0)))
  {
  }

  // ---------------------------------------------------------------------------
  // The split as documented
  // ---------------------------------------------------------------------------

  /**
   * One step of construction as documented: the west half takes columns up
   * to `ul.x + WidthExtent() / 2` and the east half starts one column later,
   * and likewise for rows, so the extra line of an odd count goes west/north.
   */
  function Split(r: Rect): (c: Children)
    requires r.Valid()
    ensures AllWithin(c, r)
    ensures SlotPattern(c, r)
    ensures Anchored(c, r)
    ensures Grid(c)
    ensures ExtraLineFirst(c, r)
    ensures Shrinks(c, r)
  {
    var midX := r.ul.x + r.WidthExtent() / 2;
    var midY := r.ul.y + r.HeightExtent() / 2;
    if r.IsUnit() then
      Children(None, None, None, None)
    else if r.HeightExtent() == 0 then
      Children(Some(Rect(r.ul, Point(midX, r.lr.y))),
               Some(Rect(Point(midX + 1, r.ul.y), r.lr)),
               None, None)
    else if r.WidthExtent() == 0 then
      Children(Some(Rect(r.ul, Point(r.lr.x, midY))),
               None,
               Some(Rect(Point(r.ul.x, midY + 1), r.lr)),
               None)
    else
      Children(Some(Rect(r.ul, Point(midX, midY))),
               Some(Rect(Point(midX + 1, r.ul.y), Point(r.lr.x, midY))),
               Some(Rect(Point(r.ul.x, midY + 1), Point(midX, r.lr.y))),
               Some(Rect(Point(midX + 1, midY + 1), r.lr)))
  }

  /** The documented children hold every pixel of the parent exactly once, and nothing outside it. */
  lemma SplitPartitions(r: Rect, p: Point)
    requires r.Valid() && !r.IsUnit()
    ensures Coverage(Split(r), p) == (if r.Contains(p) then 1 else 0)
  {
  }

  /** The documented children's areas add up to exactly the parent's. */
  lemma SplitAreaExact(r: Rect)
    requires r.Valid() && !r.IsUnit()
    ensures ChildrenArea(Split(r), r) == r.Area()
  {
    var c := Split(r);
    var a, b := r.WidthExtent() / 2 + 1, r.WidthExtent() - r.WidthExtent() / 2;
    var e, f := r.HeightExtent() / 2 + 1, r.HeightExtent() - r.HeightExtent() / 2;
    if r.HeightExtent() == 0 {
      assert ChildrenArea(c, r) == a + b;
    } else if r.WidthExtent() == 0 {
      assert ChildrenArea(c, r) == e + f;
    } else {
      assert ChildrenArea(c, r) == a * e + b * e + a * f + b * f;
      FourBlocks(a, b, e, f);
    }
  }

  /** The documented split of three columns gives the west child two of them. */
  lemma ThreeByOneSplit()
    ensures Split(Rect(Point(0, 0), Point(2, 0))) ==
      Children(Some(Rect(Point(0, 0), Point(1, 0))), Some(Rect(Point(2, 0), Point(2, 0))), None, None)
  {
  }
}
