/**
 * Points and axis-aligned boxes in the plane, with exact real coordinates.
 *
 * The source uses three.js `Vector2` and `Box2`, whose code is not part of
 * this model. Their semantics is taken to be the closed one:
 * `containsPoint` holds when `min <= p <= max` on both axes, and
 * `intersectsBox` holds when the two closed boxes overlap on both axes.
 */
module Planar {

  datatype Point = Point(x: real, y: real)

  datatype Box = Box(min: Point, max: Point)

  /** `Box2.containsPoint`: closed on every side. */
  predicate ContainsPoint(b: Box, p: Point)
  {
    b.min.x <= p.x <= b.max.x && b.min.y <= p.y <= b.max.y
  }

  /** `Box2.intersectsBox`: the closed boxes share at least one point of each axis range. */
  predicate IntersectsBox(a: Box, b: Box)
  {
    a.min.x <= b.max.x && b.min.x <= a.max.x && a.min.y <= b.max.y && b.min.y <= a.max.y
  }

  /** Squared Euclidean distance; comparing it with r*r replaces `distanceTo(...) <= r`. */
  function DistSq(p: Point, q: Point): (d: real)
    ensures d >= 0.0
  {
    (p.x - q.x) * (p.x - q.x) + (p.y - q.y) * (p.y - q.y)
  }

  /** A point inside two boxes witnesses that they intersect. */
  lemma CommonPointIntersects(a: Box, b: Box, p: Point)
    requires ContainsPoint(a, p) && ContainsPoint(b, p)
    ensures IntersectsBox(a, b)
  {
  }
}
