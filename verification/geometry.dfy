/** Axis-aligned bounding boxes and the collision test between them. */
module Geometry {

  /** A box by its minimum and maximum corners; both bounds are inclusive. */
  datatype Box = Box(xMin: real, yMin: real, xMax: real, yMax: real)

  /** The precondition `intersect` places on every box. */
  predicate WellFormed(b: Box) {
    b.xMin <= b.xMax && b.yMin <= b.yMax
  }

  predicate Inside(b: Box, x: real, y: real) {
    b.xMin <= x <= b.xMax && b.yMin <= y <= b.yMax
  }

  /** The boxes overlap on both axes. */
  function Intersect(a: Box, b: Box): bool
    requires WellFormed(a) && WellFormed(b)
  {
    (a.xMin <= b.xMax && a.xMax >= b.xMin) && (a.yMin <= b.yMax && a.yMax >= b.yMin)
  }

  /** Overlapping on both axes is sharing at least one point. */
  lemma IntersectIffCommonPoint(a: Box, b: Box)
    requires WellFormed(a) && WellFormed(b)
    ensures Intersect(a, b) <==> exists x: real, y: real :: Inside(a, x, y) && Inside(b, x, y)
  {
    var x := if a.xMin <= b.xMin then b.xMin else a.xMin;
    var y := if a.yMin <= b.yMin then b.yMin else a.yMin;
    if Intersect(a, b) {
      assert Inside(a, x, y) && Inside(b, x, y);
    }
  }

  lemma IntersectSymmetric(a: Box, b: Box)
    requires WellFormed(a) && WellFormed(b)
    ensures Intersect(a, b) == Intersect(b, a)
  {
  }

  lemma IntersectReflexive(a: Box)
    requires WellFormed(a)
    ensures Intersect(a, a)
  {
  }

  /** A gap on either axis, however small, separates two boxes. */
  lemma GapSeparates(a: Box, b: Box)
    requires WellFormed(a) && WellFormed(b)
    requires a.xMax < b.xMin || b.xMax < a.xMin || a.yMax < b.yMin || b.yMax < a.yMin
    ensures !Intersect(a, b)
  {
  }
}
