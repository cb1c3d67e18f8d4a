/** `BoundingBox2D`: an axis-aligned rectangle given by its two corners, and
    its overlap test. Coordinates are reals (the source's `Vector2` holds
    single-precision floats). */
module Geometry {

  datatype Vec2 = Vec2(x: real, y: real)

  /** `Vector2.Zero`. */
  const Zero := Vec2(0.0, 0.0)

  /** The box stores `min` and `max` exactly as given: nothing orders them. */
  datatype BoundingBox2D = BoundingBox2D(min: Vec2, max: Vec2) {

    /** `Overlaps`: all four edge comparisons are strict. */
    predicate Overlaps(box: BoundingBox2D) {
      min.x < box.max.x &&
      min.y < box.max.y &&
      box.min.x < max.x &&
      box.min.y < max.y
    }
  }

  /** A box with positive width and height. */
  ghost predicate Proper(b: BoundingBox2D) {
    b.min.x < b.max.x && b.min.y < b.max.y
  }

  /** `p` lies in the open interior of `b`. */
  ghost predicate Inside(p: Vec2, b: BoundingBox2D) {
    b.min.x < p.x < b.max.x && b.min.y < p.y < b.max.y
  }

  function Min(a: real, b: real): real { if a <= b then a else b }
  function Max(a: real, b: real): real { if a <= b then b else a }

  /** Overlap does not depend on which box asks. */
  lemma OverlapsSymmetric(a: BoundingBox2D, b: BoundingBox2D)
    ensures a.Overlaps(b) == b.Overlaps(a)
  {
  }

  /** For boxes with positive area, the strict test holds exactly when the
      open interiors share a point, that is, when the boxes intersect with
      non-zero area. */
  lemma {:induction false} OverlapsIffInteriorsMeet(a: BoundingBox2D, b: BoundingBox2D)
    requires Proper(a) && Proper(b)
    ensures a.Overlaps(b) <==> exists p :: Inside(p, a) && Inside(p, b)
  {
    if a.Overlaps(b) {
      var p := Vec2((Max(a.min.x, b.min.x) + Min(a.max.x, b.max.x)) / 2.0,
                    (Max(a.min.y, b.min.y) + Min(a.max.y, b.max.y)) / 2.0);
      assert Inside(p, a) && Inside(p, b);
    }
  }

  /** Boxes that only share an edge do not overlap. */
  lemma TouchingDoNotOverlap(a: BoundingBox2D, b: BoundingBox2D)
    requires a.max.x == b.min.x || a.max.y == b.min.y
    ensures !a.Overlaps(b) && !b.Overlaps(a)
  {
  }

  /** A box overlaps itself exactly when it has positive width and height. */
  lemma SelfOverlap(a: BoundingBox2D)
    ensures a.Overlaps(a) <==> Proper(a)
  {
  }

  /** Boxes whose x-ranges or whose y-ranges are disjoint never overlap. */
  lemma DisjointRangesDoNotOverlap(a: BoundingBox2D, b: BoundingBox2D)
    requires a.max.x <= b.min.x || b.max.x <= a.min.x || a.max.y <= b.min.y || b.max.y <= a.min.y
    ensures !a.Overlaps(b)
  {
  }
}
