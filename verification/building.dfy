/**
 * Construction of the tree from an image: the root rectangle, the recursive
 * build over split steps, and what the finished tree promises about the
 * image (its leaves partition the image, each leaf is exactly its pixel, and
 * every average stays within the colours of its region).
 */
module Building {
  import opened Wrappers
  import opened Geometry
  import opened Pixels
  import opened Splitting
  import opened Nodes
  import opened Averaging

  /** A tree: the dimensions of the image it represents and its root. */
  datatype QTree = QTree(width: U32, height: U32, root: Node)

  // ---------------------------------------------------------------------------
  // Construction with the documented split
  // ---------------------------------------------------------------------------

  /**
   * The subtree for rectangle `r`: a leaf holding the pixel at `ul` for a
   * single pixel, otherwise a node over the children of one split step whose
   * colour is averaged from theirs.
   */
  function Build(img: Png, r: Rect): (n: Node)
    requires r.Valid()
    ensures n.rect == r
    ensures n.IsLeaf() <==> r.IsUnit()
    decreases ExtentSum(r), 1
  {
    if r.IsUnit() then
      Node(r, img.PixelAt(r.ul), None, None, None, None)
    else
      var c := Split(r);
      var nw, ne, sw, se := BuildChild(img, c.nw, r), BuildChild(img, c.ne, r), BuildChild(img, c.sw, r), BuildChild(img, c.se, r);
      Node(r, GetAveragePixel(nw, ne, sw, se), nw, ne, sw, se)
  }

  /** The subtree for one child slot of `parent`; a null slot stays null. */
  function BuildChild(img: Png, o: Option<Rect>, parent: Rect): (m: Option<Node>)
    requires parent.Valid() && SlotWithin(o, parent) && SlotShrinks(o, parent)
    ensures m.Some? <==> o.Some?
    ensures m.Some? ==> m.value.rect == o.value
    decreases ExtentSum(parent), 0
  {
    match o
    case None => None
    case Some(child) => Some(Build(img, child))
  }

  /** How many leaves of `n` hold pixel `p`. */
  function Cover(n: Node, p: Point): nat
    decreases n
  {
    if n.IsLeaf() then
      (if n.rect.Contains(p) then 1 else 0)
    else
      SlotCover(n.nw, p) + SlotCover(n.ne, p) + SlotCover(n.sw, p) + SlotCover(n.se, p)
  }

  function SlotCover(o: Option<Node>, p: Point): nat
    decreases o
  {
    match o
    case None => 0
    case Some(m) => Cover(m, p)
  }

  /** The number of leaves of `n`. */
  function LeafCount(n: Node): nat
    decreases n
  {
    if n.IsLeaf() then 1
    else SlotLeafCount(n.nw) + SlotLeafCount(n.ne) + SlotLeafCount(n.sw) + SlotLeafCount(n.se)
  }

  function SlotLeafCount(o: Option<Node>): nat
    decreases o
  {
    match o
    case None => 0
    case Some(m) => LeafCount(m)
  }

  /** Every leaf of `n` is a single pixel whose colour is that pixel of `img`. */
  predicate LeavesExact(n: Node, img: Png)
    decreases n
  {
    if n.IsLeaf() then
      n.rect.IsUnit() && n.avg == img.PixelAt(n.rect.ul)
    else
      SlotExact(n.nw, img) && SlotExact(n.ne, img) && SlotExact(n.sw, img) && SlotExact(n.se, img)
  }

  predicate SlotExact(o: Option<Node>, img: Png)
    decreases o
  {
    match o
    case None => true
    case Some(m) => LeavesExact(m, img)
  }

  /** The leaves of a built subtree hold every pixel of its rectangle exactly once, and nothing else. */
  lemma {:induction false} BuildPartitions(img: Png, r: Rect, p: Point)
    requires r.Valid()
    ensures Cover(Build(img, r), p) == (if r.Contains(p) then 1 else 0)
    decreases ExtentSum(r), 1
  {
    if !r.IsUnit() {
      var c := Split(r);
      ChildPartitions(img, r, c.nw, p);
      ChildPartitions(img, r, c.ne, p);
      ChildPartitions(img, r, c.sw, p);
      ChildPartitions(img, r, c.se, p);
      SplitPartitions(r, p);
    }
  }

  lemma {:induction false} ChildPartitions(img: Png, r: Rect, o: Option<Rect>, p: Point)
    requires r.Valid() && SlotWithin(o, r) && SlotShrinks(o, r)
    ensures SlotCover(BuildChild(img, o, r), p) == Hits(o, p)
    decreases ExtentSum(r), 0
  {
    if o.Some? {
      BuildPartitions(img, o.value, p);
    }
  }

  /** A built subtree has one leaf per pixel of its rectangle. */
  lemma {:induction false} BuildLeafCount(img: Png, r: Rect)
    requires r.Valid()
    ensures LeafCount(Build(img, r)) == r.Area()
    decreases ExtentSum(r), 1
  {
    if !r.IsUnit() {
      var c := Split(r);
      ChildLeafCount(img, r, c.nw);
      ChildLeafCount(img, r, c.ne);
      ChildLeafCount(img, r, c.sw);
      ChildLeafCount(img, r, c.se);
      SplitAreaExact(r);
    }
  }

  lemma {:induction false} ChildLeafCount(img: Png, r: Rect, o: Option<Rect>)
    requires r.Valid() && SlotWithin(o, r) && SlotShrinks(o, r)
    ensures SlotLeafCount(BuildChild(img, o, r)) == SlotArea(o, r)
    decreases ExtentSum(r), 0
  {
    if o.Some? {
      BuildLeafCount(img, o.value);
    }
  }

  /** Every leaf of a built subtree is one pixel, coloured exactly as in the image. */
  lemma {:induction false} BuildLeavesExact(img: Png, r: Rect)
    requires r.Valid()
    ensures LeavesExact(Build(img, r), img)
    decreases ExtentSum(r), 1
  {
    if !r.IsUnit() {
      var c := Split(r);
      ChildLeavesExact(img, r, c.nw);
      ChildLeavesExact(img, r, c.ne);
      ChildLeavesExact(img, r, c.sw);
      ChildLeavesExact(img, r, c.se);
    }
  }

  lemma {:induction false} ChildLeavesExact(img: Png, r: Rect, o: Option<Rect>)
    requires r.Valid() && SlotWithin(o, r) && SlotShrinks(o, r)
    ensures SlotExact(BuildChild(img, o, r), img)
    decreases ExtentSum(r), 0
  {
    if o.Some? {
      BuildLeavesExact(img, o.value);
    }
  }

  /** Every pixel of `r` has channel `k` within `lo..hi`. */
  ghost predicate RegionInBand(img: Png, r: Rect, k: Channel, lo: int, hi: int) {
    forall p :: r.Contains(p) ==> lo <= Get(img.PixelAt(p), k) <= hi
  }

  /** A rectangle inside a region whose channel lies in a band lies in that band too. */
  lemma RegionInBandInner(img: Png, r: Rect, inner: Rect, k: Channel, lo: int, hi: int)
    requires r.Encloses(inner) && RegionInBand(img, r, k, lo, hi)
    ensures RegionInBand(img, inner, k, lo, hi)
  {
  }

  /** The built child in slot `o` of a band-limited parent has its average in the band. */
  lemma {:induction false} ChildWithinBand(img: Png, r: Rect, o: Option<Rect>, k: Channel, lo: int, hi: int)
    requires r.Valid() && SlotWithin(o, r) && SlotShrinks(o, r) && RegionInBand(img, r, k, lo, hi)
    ensures InBand(BuildChild(img, o, r), k, lo, hi)
    decreases ExtentSum(r), 0
  {
    if o.Some? {
      RegionInBandInner(img, r, o.value, k, lo, hi);
      BuildWithinBand(img, o.value, k, lo, hi);
    }
  }

  /**
   * A node's average, though rounded at every level, never leaves the range
   * of the channel over the pixels of its rectangle.
   */
  lemma {:induction false} BuildWithinBand(img: Png, r: Rect, k: Channel, lo: int, hi: int)
    requires r.Valid() && RegionInBand(img, r, k, lo, hi)
    ensures lo <= Get(Build(img, r).avg, k) <= hi
    decreases ExtentSum(r), 1
  {
    if r.IsUnit() {
      assert r.Contains(r.ul);
    } else {
      var c := Split(r);
      ChildWithinBand(img, r, c.nw, k, lo, hi);
      ChildWithinBand(img, r, c.ne, k, lo, hi);
      ChildWithinBand(img, r, c.sw, k, lo, hi);
      ChildWithinBand(img, r, c.se, k, lo, hi);
      var n := Build(img, r);
      AverageWithinBand(n.nw, n.ne, n.sw, n.se, k, lo, hi);
    }
  }

  /** A region of one colour builds to a subtree whose average is exactly that colour. */
  lemma BuildUniform(img: Png, r: Rect, c: Pixel)
    requires r.Valid()
    requires forall p :: r.Contains(p) ==> img.PixelAt(p) == c
    ensures Build(img, r).avg == c
  {
    BuildWithinBand(img, r, Red, c.r, c.r);
    BuildWithinBand(img, r, Green, c.g, c.g);
    BuildWithinBand(img, r, Blue, c.b, c.b);
  }

  /**
   * The tree of an image, rejecting an image with no columns or no rows,
   * whose root rectangle would otherwise wrap round.
   */
  function FromPng(img: Png): (t: Option<QTree>)
    ensures t.Some? <==> img.width >= 1 && img.height >= 1
    ensures t.Some? ==> t.value.width == img.width && t.value.height == img.height
    ensures t.Some? ==> t.value.root.rect == Rect(Point(0, 0), Point(img.width - 1, img.height - 1))
  {
    if img.width == 0 || img.height == 0 then None
    else Some(QTree(img.width, img.height, Build(img, RootRect(img.width, img.height))))
  }

  /** The leaves of a constructed tree hold each pixel of the image exactly once. */
  lemma FromPngPartitions(img: Png, p: Point)
    requires img.width >= 1 && img.height >= 1
    ensures Cover(FromPng(img).value.root, p) == (if p.x < img.width && p.y < img.height then 1 else 0)
  {
    BuildPartitions(img, RootRect(img.width, img.height), p);
  }

  // ---------------------------------------------------------------------------
  // Construction as the source writes it
  // ---------------------------------------------------------------------------

  /**
   * The recursive build with the split as written. `depth` bounds how many
   * nested calls the recursion may make; `None` means it did not finish
   * within that many.
   */
  function BuildAsWritten(img: Png, r: Rect, depth: nat): (o: Option<Node>)
    requires r.Valid()
    ensures o.Some? ==> o.value.rect == r
    ensures o.Some? ==> (o.value.IsLeaf() <==> r.IsUnit())
    decreases depth
  {
    if depth == 0 then None
    else if r.IsUnit() then
      Some(Node(r, img.PixelAt(r.ul), None, None, None, None))
    else
      var c := SplitAsWritten(r);
      var nw := if c.nw.Some? then BuildAsWritten(img, c.nw.value, depth - 1) else None;
      var ne := if c.ne.Some? then BuildAsWritten(img, c.ne.value, depth - 1) else None;
      var sw := if c.sw.Some? then BuildAsWritten(img, c.sw.value, depth - 1) else None;
      var se := if c.se.Some? then BuildAsWritten(img, c.se.value, depth - 1) else None;
      if nw.None? || (c.ne.Some? && ne.None?) || (c.sw.Some? && sw.None?) || (c.se.Some? && se.None?) then
        None
      else
        Some(Node(r, GetAveragePixel(nw, ne, sw, se), nw, ne, sw, se))
  }

  /**
   * With the split as written, only a single pixel ever finishes: for any
   * larger rectangle the chain of NW children never reaches a pixel, so no
   * recursion depth suffices.
   */
  lemma {:induction false} BuildAsWrittenNeverFinishes(img: Png, r: Rect, depth: nat)
    requires r.Valid() && !r.IsUnit()
    ensures BuildAsWritten(img, r, depth) == None
    decreases depth
  {
    if depth > 0 {
      BuildAsWrittenNeverFinishes(img, SplitAsWritten(r).nw.value, depth - 1);
    }
  }

  /**
   * Construction of a tree as written. It finishes only for a 1x1 image,
   * whose root is a leaf holding its one pixel.
   */
  function QTreeAsWritten(img: Png, depth: nat): (t: Option<QTree>)
    ensures t.Some? <==> img.width == 1 && img.height == 1 && depth >= 1
    ensures t.Some? ==> t.value.root.IsLeaf() && t.value.root.avg == img.at(0, 0)
  {
    var r := RootRect(img.width, img.height);
    var built := BuildAsWritten(img, r, depth);
    assert built.Some? ==> r.IsUnit() by {
      if !r.IsUnit() {
        BuildAsWrittenNeverFinishes(img, r, depth);
      }
    }
    match built
    case None => None
    case Some(root) => Some(QTree(img.width, img.height, root))
  }
}
