/**
 * The quadtree's geometry: tagged points and axis-aligned rectangles given
 * by a centre and half-extents, with the closed-box membership test and the
 * box-overlap test.
 */
module Bounds {
  import opened Geometry

  /** A point of the quadtree with an opaque payload (a wall, or nothing). */
  datatype Point<D> = Point(pos: Vec2, data: D)

  /** The box `[pos.x - width, pos.x + width] x [pos.y - height, pos.y + height]`. */
  datatype Rect = Rect(pos: Vec2, width: real, height: real)
  {
    function XMin(): real { pos.x - width }
    function XMax(): real { pos.x + width }
    function YMin(): real { pos.y - height }
    function YMax(): real { pos.y + height }

    /**
     * Closed-box membership: points on the edges are inside. Equivalently
     * the point is within the half-extents of the centre on both axes, so
     * a box with a negative half-extent contains nothing.
     */
    predicate Contains<D>(point: Point<D>): (b: bool)
      ensures b <==> Abs(point.pos.x - pos.x) <= width && Abs(point.pos.y - pos.y) <= height
      ensures b ==> width >= 0.0 && height >= 0.0
    {
      var x, y := point.pos.x, point.pos.y;
      x >= XMin() && x <= XMax() && y >= YMin() && y <= YMax()
    }

    /**
     * The boxes overlap: they are not strictly apart along either axis.
     * Equivalently the centres are no farther apart on each axis than the
     * sum of the two half-extents.
     */
    predicate IntersectsR(other: Rect): (b: bool)
      ensures b <==> Abs(pos.x - other.pos.x) <= width + other.width &&
                     Abs(pos.y - other.pos.y) <= height + other.height
    {
      !(XMin() > other.XMax() || XMax() < other.XMin() ||
        YMin() > other.YMax() || YMax() < other.YMin())
    }
  }

  /** The two boxes' closed projections on the x-axis overlap. */
  predicate OverlapX(a: Rect, b: Rect)
  {
    Max(a.XMin(), b.XMin()) <= Min(a.XMax(), b.XMax())
  }

  /** The two boxes' closed projections on the y-axis overlap. */
  predicate OverlapY(a: Rect, b: Rect)
  {
    Max(a.YMin(), b.YMin()) <= Min(a.YMax(), b.YMax())
  }

  /**
   * With non-negative half-extents, `IntersectsR` is the overlap of both
   * closed projections; boxes that only touch along an edge or at a corner
   * intersect.
   */
  lemma IntersectsIffOverlap(a: Rect, b: Rect)
    requires a.width >= 0.0 && a.height >= 0.0 && b.width >= 0.0 && b.height >= 0.0
    ensures a.IntersectsR(b) <==> OverlapX(a, b) && OverlapY(a, b)
  {
  }

  /** The overlap test does not depend on the order of its operands. */
  lemma IntersectsSymmetric(a: Rect, b: Rect)
    ensures a.IntersectsR(b) == b.IntersectsR(a)
  {
  }

  /** A point inside both boxes proves that they intersect. */
  lemma CommonPointIntersects<D>(a: Rect, b: Rect, p: Point<D>)
    requires a.Contains(p) && b.Contains(p)
    ensures a.IntersectsR(b)
  {
  }

  /**
   * The converse for boxes with non-negative half-extents: intersecting
   * boxes share a point, the lower-left corner of their overlap.
   */
  function OverlapCorner<D>(a: Rect, b: Rect, data: D): (p: Point<D>)
    requires a.width >= 0.0 && a.height >= 0.0 && b.width >= 0.0 && b.height >= 0.0
    requires a.IntersectsR(b)
    ensures a.Contains(p) && b.Contains(p)
  {
    Point(Vec2(Max(a.XMin(), b.XMin()), Max(a.YMin(), b.YMin())), data)
  }

  /**
   * A box with non-negative half-extents contains its centre and its four
   * corners, and intersects itself.
   */
  lemma SelfContainment<D>(r: Rect, data: D)
    requires r.width >= 0.0 && r.height >= 0.0
    ensures r.Contains(Point(r.pos, data))
    ensures r.Contains(Point(Vec2(r.XMin(), r.YMin()), data)) && r.Contains(Point(Vec2(r.XMax(), r.YMin()), data))
    ensures r.Contains(Point(Vec2(r.XMin(), r.YMax()), data)) && r.Contains(Point(Vec2(r.XMax(), r.YMax()), data))
    ensures r.IntersectsR(r)
  {
  }
}
