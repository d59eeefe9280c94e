/** Axis-aligned rectangles given by their lower-left and upper-right corners.
    Nothing forces the lower-left corner to lie below and left of the other;
    `WellFormed` names that condition where a lemma needs it. */
module Rects {
  import opened Points

  datatype Rect = Rect(lowerLeft: Point, upperRight: Point)

  /** Containment, inclusive on all four sides. */
  predicate Contains(r: Rect, p: Point)
    ensures Contains(r, p) ==> WellFormed(r)
  {
    r.lowerLeft.x <= p.x <= r.upperRight.x && r.lowerLeft.y <= p.y <= r.upperRight.y
  }

  predicate WellFormed(r: Rect) {
    r.lowerLeft.x <= r.upperRight.x && r.lowerLeft.y <= r.upperRight.y
  }

  /** xmin: the left edge: its x is inside `r` and the x one to the left is not
      (for a well-formed `r`). */
  function XMin(r: Rect): (m: int)
    ensures WellFormed(r) ==> Contains(r, Point(m, r.lowerLeft.y)) && !Contains(r, Point(m - 1, r.lowerLeft.y))
  {
    r.lowerLeft.x
  }

  /** xmax: the right edge: its x is inside `r` and the x one to the right is not
      (for a well-formed `r`). */
  function XMax(r: Rect): (m: int)
    ensures WellFormed(r) ==> Contains(r, Point(m, r.upperRight.y)) && !Contains(r, Point(m + 1, r.upperRight.y))
  {
    r.upperRight.x
  }

  /** ymin: the bottom edge: its y is inside `r` and the y one below is not
      (for a well-formed `r`). */
  function YMin(r: Rect): (m: int)
    ensures WellFormed(r) ==> Contains(r, Point(r.lowerLeft.x, m)) && !Contains(r, Point(r.lowerLeft.x, m - 1))
  {
    r.lowerLeft.y
  }

  /** ymax: the top edge: its y is inside `r` and the y one above is not
      (for a well-formed `r`). */
  function YMax(r: Rect): (m: int)
    ensures WellFormed(r) ==> Contains(r, Point(r.upperRight.x, m)) && !Contains(r, Point(r.upperRight.x, m + 1))
  {
    r.upperRight.y
  }

  /** Rect::intersects: one of the four corners of `other`
      lies in `r`, or the lower-left corner of `r` lies in `other`. */
  predicate Intersects(r: Rect, other: Rect)
    ensures Intersects(r, other) ==> WellFormed(r) || WellFormed(other)
  {
    Contains(r, other.upperRight) ||
    Contains(r, Point(XMax(other), YMin(other))) ||
    Contains(r, Point(XMin(other), YMax(other))) ||
    Contains(r, other.lowerLeft) ||
    Contains(other, r.lowerLeft)
  }

  /** The exact overlap test of two rectangles (closed intervals on both axes). */
  predicate Overlaps(r: Rect, other: Rect) {
    XMin(r) <= XMax(other) && XMin(other) <= XMax(r) &&
    YMin(r) <= YMax(other) && YMin(other) <= YMax(r)
  }

  /** The smallest rectangle holding `r` and `p`: Node::UpdateRegion widens a
      node's region this way before a point descends past it. */
  function Extended(r: Rect, p: Point): (e: Rect)
    ensures Contains(e, p)
    ensures forall q :: Contains(r, q) ==> Contains(e, q)
    ensures WellFormed(r) ==> forall s :: Contains(s, r.lowerLeft) && Contains(s, r.upperRight) && Contains(s, p) ==>
              Contains(s, e.lowerLeft) && Contains(s, e.upperRight)
  {
    Rect(Point(Min(p.x, r.lowerLeft.x), Min(p.y, r.lowerLeft.y)),
         Point(Max(p.x, r.upperRight.x), Max(p.y, r.upperRight.y)))
  }

  function Min(a: int, b: int): int { if a <= b then a else b }

  function Max(a: int, b: int): int { if a >= b then a else b }

  /** Per-axis clamped offset of `v` from the interval [lo, hi]. */
  function Offset(lo: int, hi: int, v: int): (d: int)
    ensures d >= 0
    ensures lo <= v <= hi ==> d == 0
    ensures forall w :: lo <= w <= hi ==> d <= Gap(v, w)
    ensures lo <= hi ==> d == Gap(v, Clamp(lo, hi, v))
    ensures lo <= hi ==> exists w :: lo <= w <= hi && d == Gap(v, w)
  {
    assert lo <= hi ==> lo <= Clamp(lo, hi, v) <= hi;
    Max3(0, lo - v, v - hi)
  }

  /** The point of [lo, hi] nearest to `v`. */
  function Clamp(lo: int, hi: int, v: int): (c: int)
    requires lo <= hi
    ensures lo <= c <= hi
    ensures lo <= v <= hi ==> c == v
  {
    if v < lo then lo else if v > hi then hi else v
  }

  /** |v - w| */
  function Gap(v: int, w: int): int {
    if v <= w then w - v else v - w
  }

  function Max3(a: int, b: int, c: int): int {
    if a >= b && a >= c then a else if b >= c then b else c
  }

  /** Squared distance from `p` to the nearest point of `r`: never
      negative, and 0 exactly for the points of a well-formed `r`. */
  function DistSq(r: Rect, p: Point): (d: int)
    ensures d >= 0
    ensures WellFormed(r) ==> (d == 0 <==> Contains(r, p))
  {
    var dx := Offset(XMin(r), XMax(r), p.x);
    var dy := Offset(YMin(r), YMax(r), p.y);
    Square(dx);
    Square(dy);
    dx * dx + dy * dy
  }

  /** The point of `r` nearest to `p`: `p` clamped into `r` on both axes. */
  function NearestIn(r: Rect, p: Point): (q: Point)
    requires WellFormed(r)
    ensures Contains(r, q)
    ensures Contains(r, p) ==> q == p
  {
    Point(Clamp(XMin(r), XMax(r), p.x), Clamp(YMin(r), YMax(r), p.y))
  }

  /** Rect::distance is attained: it is the distance from `p` to the clamped
      point of `r`, which with DistSqIsLowerBound makes it the least distance
      from `p` to any point of `r`. */
  lemma DistSqIsAttained(r: Rect, p: Point)
    requires WellFormed(r)
    ensures DistSq(r, p) == Points.DistSq(p, NearestIn(r, p))
    ensures forall q :: Contains(r, q) ==> DistSq(r, p) <= Points.DistSq(p, q)
  {
    var c := NearestIn(r, p);
    var dx, dy := Offset(XMin(r), XMax(r), p.x), Offset(YMin(r), YMax(r), p.y);
    assert dx * dx == (p.x - c.x) * (p.x - c.x) by {
      assert dx == Gap(p.x, c.x);
    }
    assert dy * dy == (p.y - c.y) * (p.y - c.y) by {
      assert dy == Gap(p.y, c.y);
    }
    forall q | Contains(r, q) ensures DistSq(r, p) <= Points.DistSq(p, q) {
      DistSqIsLowerBound(r, p, q);
    }
  }

  lemma DistSqOfContained(r: Rect, p: Point)
    requires Contains(r, p)
    ensures DistSq(r, p) == 0
  {
  }

  /** The distance to a rectangle never exceeds the distance to any point inside
      it: the bound that lets nearest-neighbour search skip a whole region. */
  lemma {:induction false} DistSqIsLowerBound(r: Rect, p: Point, q: Point)
    requires Contains(r, q)
    ensures 0 <= DistSq(r, p) <= Points.DistSq(p, q)
  {
    AxisBound(XMin(r), XMax(r), p.x, q.x);
    AxisBound(YMin(r), YMax(r), p.y, q.y);
  }

  lemma AxisBound(lo: int, hi: int, v: int, w: int)
    requires lo <= w <= hi
    ensures 0 <= Offset(lo, hi, v) * Offset(lo, hi, v) <= (v - w) * (v - w)
  {
    var d := Offset(lo, hi, v);
    SquareMonotone(d, Gap(v, w));
    assert Gap(v, w) * Gap(v, w) == (v - w) * (v - w) by {
      if v > w {
        assert Gap(v, w) == v - w;
      } else {
        assert Gap(v, w) == -(v - w);
      }
    }
  }

  /** A point inside both rectangles makes them overlap. */
  lemma OverlapsIsComplete(r: Rect, other: Rect, p: Point)
    requires Contains(r, p) && Contains(other, p)
    ensures Overlaps(r, other)
  {
  }

  /** When Rect::intersects succeeds on well-formed rectangles, they share a
      point, so it never reports a false overlap. */
  lemma IntersectsIsSound(r: Rect, other: Rect)
    requires WellFormed(r) && WellFormed(other)
    requires Intersects(r, other)
    ensures exists p :: Contains(r, p) && Contains(other, p)
    ensures Overlaps(r, other)
  {
    if Contains(r, other.upperRight) {
      assert Contains(other, other.upperRight);
    } else if Contains(r, Point(XMax(other), YMin(other))) {
      assert Contains(other, Point(XMax(other), YMin(other)));
    } else if Contains(r, Point(XMin(other), YMax(other))) {
      assert Contains(other, Point(XMin(other), YMax(other)));
    } else if Contains(r, other.lowerLeft) {
      assert Contains(other, other.lowerLeft);
    } else {
      assert Contains(r, r.lowerLeft);
    }
  }

  /** Rect::intersects misses overlaps shaped like a cross, where no corner of
      either rectangle lies inside the other: a vertical segment at x = 5 from
      y = 0 to y = 10 and the square from (4, 4) to (6, 6) share (5, 5). */
  lemma IntersectsMissesCross()
    ensures Contains(Rect(Point(5, 0), Point(5, 10)), Point(5, 5))
    ensures Contains(Rect(Point(4, 4), Point(6, 6)), Point(5, 5))
    ensures !Intersects(Rect(Point(5, 0), Point(5, 10)), Rect(Point(4, 4), Point(6, 6)))
  {
  }
}
