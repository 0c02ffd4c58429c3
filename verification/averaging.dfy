/**
 * The parent colour computed from up to four children: each channel is the
 * area-weighted mean of the children's stored colours, with integer
 * division, and a null child weighs nothing.
 */
module Averaging {
  import opened Wrappers
  import opened Geometry
  import opened Pixels
  import opened Nodes

  /** A child whose area can be taken: absent, or with a well-formed rectangle. */
  predicate Weighable(o: Option<Node>) {
    o.Some? ==> o.value.rect.Valid()
  }

  predicate AllWeighable(nw: Option<Node>, ne: Option<Node>, sw: Option<Node>, se: Option<Node>) {
    Weighable(nw) && Weighable(ne) && Weighable(sw) && Weighable(se)
  }

  predicate AnyPresent(nw: Option<Node>, ne: Option<Node>, sw: Option<Node>, se: Option<Node>) {
    nw.Some? || ne.Some? || sw.Some? || se.Some?
  }

  function Weight(o: Option<Node>): nat
    requires Weighable(o)
  {
    if o.Some? then o.value.rect.Area() else 0
  }

  function Term(o: Option<Node>, k: Channel): nat
    requires Weighable(o)
  {
    if o.Some? then Get(o.value.avg, k) * o.value.rect.Area() else 0
  }

  /** The source's `totalArea`. */
  function TotalArea(nw: Option<Node>, ne: Option<Node>, sw: Option<Node>, se: Option<Node>): nat
    requires AllWeighable(nw, ne, sw, se)
  {
    Weight(nw) + Weight(ne) + Weight(sw) + Weight(se)
  }

  /** The numerator of one channel's average. */
  function ChannelSum(nw: Option<Node>, ne: Option<Node>, sw: Option<Node>, se: Option<Node>, k: Channel): nat
    requires AllWeighable(nw, ne, sw, se)
  {
    Term(nw, k) + Term(ne, k) + Term(sw, k) + Term(se, k)
  }

  /** A present child's channel `k` lies in `lo..hi`. */
  predicate InBand(o: Option<Node>, k: Channel, lo: int, hi: int) {
    o.Some? ==> lo <= Get(o.value.avg, k) <= hi
  }

  lemma TermInBand(o: Option<Node>, k: Channel, lo: int, hi: int)
    requires Weighable(o) && InBand(o, k, lo, hi)
    ensures lo * Weight(o) <= Term(o, k) <= hi * Weight(o)
  {
  }

  lemma Distribute(c: int, w1: int, w2: int, w3: int, w4: int)
    ensures c * (w1 + w2 + w3 + w4) == c * w1 + c * w2 + c * w3 + c * w4
  {
  }

  /** The weighted sum lies between `lo` and `hi` times the total weight. */
  lemma SumInBand(nw: Option<Node>, ne: Option<Node>, sw: Option<Node>, se: Option<Node>, k: Channel, lo: int, hi: int)
    requires AllWeighable(nw, ne, sw, se)
    requires InBand(nw, k, lo, hi) && InBand(ne, k, lo, hi) && InBand(sw, k, lo, hi) && InBand(se, k, lo, hi)
    ensures lo * TotalArea(nw, ne, sw, se) <= ChannelSum(nw, ne, sw, se, k) <= hi * TotalArea(nw, ne, sw, se)
  {
    TermInBand(nw, k, lo, hi);
    TermInBand(ne, k, lo, hi);
    TermInBand(sw, k, lo, hi);
    TermInBand(se, k, lo, hi);
    Distribute(lo, Weight(nw), Weight(ne), Weight(sw), Weight(se));
    Distribute(hi, Weight(nw), Weight(ne), Weight(sw), Weight(se));
  }

  lemma MulCancel(x: int, y: int, a: nat)
    requires x * a < y * a
    ensures x < y
  {
  }

  /** Integer division keeps a weighted mean inside the band its terms lie in. */
  lemma QuotientInBand(s: nat, a: nat, lo: int, hi: int)
    requires a > 0 && lo * a <= s <= hi * a
    ensures lo <= s / a <= hi
  {
    var q := s / a;
    assert s == q * a + s % a;
    assert (q + 1) * a == q * a + a;
    MulCancel(lo, q + 1, a);
    assert (hi + 1) * a == hi * a + a;
    MulCancel(q, hi + 1, a);
  }

  /** The quotient rounded down is the largest multiple of `a` not above `s`. */
  lemma QuotientBrackets(s: nat, a: nat)
    requires a > 0
    ensures (s / a) * a <= s < (s / a + 1) * a
  {
  }

  lemma TotalAreaPositive(nw: Option<Node>, ne: Option<Node>, sw: Option<Node>, se: Option<Node>)
    requires AllWeighable(nw, ne, sw, se) && AnyPresent(nw, ne, sw, se)
    ensures TotalArea(nw, ne, sw, se) > 0
  {
  }

  /**
   * One channel of the parent colour: the weighted sum divided by the total
   * area, i.e. the weighted mean rounded down.
   */
  function AverageChannel(nw: Option<Node>, ne: Option<Node>, sw: Option<Node>, se: Option<Node>, k: Channel): (v: Byte)
    requires AllWeighable(nw, ne, sw, se) && AnyPresent(nw, ne, sw, se)
    ensures v * TotalArea(nw, ne, sw, se) <= ChannelSum(nw, ne, sw, se, k) < (v + 1) * TotalArea(nw, ne, sw, se)
  {
    var sum := ChannelSum(nw, ne, sw, se, k);
    var total := TotalArea(nw, ne, sw, se);
    TotalAreaPositive(nw, ne, sw, se);
    SumInBand(nw, ne, sw, se, k, 0, 255);
    QuotientInBand(sum, total, 0, 255);
    QuotientBrackets(sum, total);
    sum / total
  }

  /**
   * The parent colour of a node built from the given children. At least one
   * child must be present, or the total area is zero and the division is
   * undefined.
   */
  function GetAveragePixel(nw: Option<Node>, ne: Option<Node>, sw: Option<Node>, se: Option<Node>): (p: Pixel)
    requires AllWeighable(nw, ne, sw, se) && AnyPresent(nw, ne, sw, se)
    ensures forall k :: Get(p, k) * TotalArea(nw, ne, sw, se) <= ChannelSum(nw, ne, sw, se, k)
    ensures forall k :: ChannelSum(nw, ne, sw, se, k) < (Get(p, k) + 1) * TotalArea(nw, ne, sw, se)
  {
    Pixel(AverageChannel(nw, ne, sw, se, Red),
          AverageChannel(nw, ne, sw, se, Green),
          AverageChannel(nw, ne, sw, se, Blue))
  }

  /**
   * Each channel of the average lies between the least and the greatest
   * value of that channel among the present children.
   */
  lemma AverageWithinBand(nw: Option<Node>, ne: Option<Node>, sw: Option<Node>, se: Option<Node>, k: Channel, lo: int, hi: int)
    requires AllWeighable(nw, ne, sw, se) && AnyPresent(nw, ne, sw, se)
    requires InBand(nw, k, lo, hi) && InBand(ne, k, lo, hi) && InBand(sw, k, lo, hi) && InBand(se, k, lo, hi)
    ensures lo <= Get(GetAveragePixel(nw, ne, sw, se), k) <= hi
  {
    TotalAreaPositive(nw, ne, sw, se);
    SumInBand(nw, ne, sw, se, k, lo, hi);
    QuotientInBand(ChannelSum(nw, ne, sw, se, k), TotalArea(nw, ne, sw, se), lo, hi);
  }

  predicate SameColour(o: Option<Node>, c: Pixel) {
    o.Some? ==> o.value.avg == c
  }

  /** When every present child has colour `c`, so does the parent. */
  lemma AverageOfUniform(nw: Option<Node>, ne: Option<Node>, sw: Option<Node>, se: Option<Node>, c: Pixel)
    requires AllWeighable(nw, ne, sw, se) && AnyPresent(nw, ne, sw, se)
    requires SameColour(nw, c) && SameColour(ne, c) && SameColour(sw, c) && SameColour(se, c)
    ensures GetAveragePixel(nw, ne, sw, se) == c
  {
    AverageWithinBand(nw, ne, sw, se, Red, c.r, c.r);
    AverageWithinBand(nw, ne, sw, se, Green, c.g, c.g);
    AverageWithinBand(nw, ne, sw, se, Blue, c.b, c.b);
  }
}
