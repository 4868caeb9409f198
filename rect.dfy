/** Axis-aligned rectangles of the R-tree, given by two corner points, and
    the Morton key of their centre that orders them for bulk loading. */
module Rect {
  import opened Ints
  import opened Bits
  import opened Morton

  datatype Rectangle = Rectangle(min: Point, max: Point)

  /** Closed test: rectangles that only share an edge or a corner intersect. */
  predicate Intersects(a: Rectangle, b: Rectangle) {
    !(a.min.x > b.max.x || a.min.y > b.max.y || b.min.x > a.max.x || b.min.y > a.max.y)
  }

  /** Open test: rectangles that only share an edge do not overlap. */
  predicate Overlaps(a: Rectangle, b: Rectangle) {
    !(a.min.x >= b.max.x || a.min.y >= b.max.y || b.min.x >= a.max.x || b.min.y >= a.max.y)
  }

  function Min(a: Int16, b: Int16): Int16 { if a <= b then a else b }
  function Max(a: Int16, b: Int16): Int16 { if a >= b then a else b }

  /** `outer` covers `inner` on both axes. */
  predicate Contains(outer: Rectangle, inner: Rectangle) {
    outer.min.x <= inner.min.x && outer.min.y <= inner.min.y
    && inner.max.x <= outer.max.x && inner.max.y <= outer.max.y
  }

  /** Corners are ordered, so the rectangle holds at least one point. */
  predicate WellFormed(r: Rectangle) {
    r.min.x <= r.max.x && r.min.y <= r.max.y
  }

  /** Positive width and height. */
  predicate Proper(r: Rectangle) {
    r.min.x < r.max.x && r.min.y < r.max.y
  }

  predicate InRect(x: int, y: int, r: Rectangle) {
    r.min.x <= x <= r.max.x && r.min.y <= y <= r.max.y
  }

  /** The bounding box of two rectangles: corner-wise minimum and maximum. */
  function Extend(a: Rectangle, b: Rectangle): (r: Rectangle)
    ensures Contains(r, a) && Contains(r, b)
  {
    Rectangle(Point(Min(a.min.x, b.min.x), Min(a.min.y, b.min.y)),
              Point(Max(a.max.x, b.max.x), Max(a.max.y, b.max.y)))
  }

  lemma IntersectsSymmetric(a: Rectangle, b: Rectangle)
    ensures Intersects(a, b) == Intersects(b, a)
    ensures Overlaps(a, b) == Overlaps(b, a)
  {}

  /** Overlapping is the stricter test. */
  lemma OverlapsIntersects(a: Rectangle, b: Rectangle)
    ensures Overlaps(a, b) ==> Intersects(a, b)
  {}

  /** A rectangle that starts at `a`'s right edge and shares some of its
      height touches `a` without overlapping it. */
  lemma SharedEdge(a: Rectangle, b: Rectangle)
    requires WellFormed(a) && WellFormed(b)
    requires b.min.x == a.max.x && a.min.y <= b.max.y && b.min.y <= a.max.y
    ensures Intersects(a, b) && !Overlaps(a, b)
  {}

  /** For well-formed rectangles, intersecting means sharing a point. */
  lemma IntersectsCommonPoint(a: Rectangle, b: Rectangle)
    requires WellFormed(a) && WellFormed(b)
    ensures Intersects(a, b) <==> exists x: int, y: int :: InRect(x, y, a) && InRect(x, y, b)
  {
    if Intersects(a, b) {
      var x := if a.min.x <= b.min.x then b.min.x else a.min.x;
      var y := if a.min.y <= b.min.y then b.min.y else a.min.y;
      assert InRect(x, y, a) && InRect(x, y, b);
    }
  }

  /** For rectangles of positive width and height, overlapping means
      sharing a unit cell, the square from `(x, y)` to `(x + 1, y + 1)`. */
  lemma OverlapsCommonCell(a: Rectangle, b: Rectangle)
    requires Proper(a) && Proper(b)
    ensures Overlaps(a, b) <==> exists x: int, y: int ::
      InRect(x, y, a) && InRect(x + 1, y + 1, a) && InRect(x, y, b) && InRect(x + 1, y + 1, b)
  {
    if Overlaps(a, b) {
      var x := if a.min.x <= b.min.x then b.min.x else a.min.x;
      var y := if a.min.y <= b.min.y then b.min.y else a.min.y;
      assert InRect(x, y, a) && InRect(x + 1, y + 1, a) && InRect(x, y, b) && InRect(x + 1, y + 1, b);
    }
  }

  /** The bounding box is the least rectangle containing both. */
  lemma ExtendLeast(a: Rectangle, b: Rectangle, c: Rectangle)
    requires Contains(c, a) && Contains(c, b)
    ensures Contains(c, Extend(a, b))
  {}

  lemma ExtendCommutes(a: Rectangle, b: Rectangle)
    ensures Extend(a, b) == Extend(b, a)
  {}

  lemma ExtendAssociates(a: Rectangle, b: Rectangle, c: Rectangle)
    ensures Extend(Extend(a, b), c) == Extend(a, Extend(b, c))
  {}

  /** A rectangle that a query misses is missed by all it covers. */
  lemma ContainsIntersects(outer: Rectangle, inner: Rectangle, q: Rectangle)
    requires Contains(outer, inner) && Intersects(inner, q)
    ensures Intersects(outer, q)
  {}

  datatype MortonRectangle = MortonRectangle(min: MortonPoint, max: MortonPoint)

  function ToMorton(r: Rectangle): MortonRectangle {
    MortonRectangle(Encode(r.min), Encode(r.max))
  }

  /** `(min >> 1) + (max >> 1)` on the `u32` keys: half of each key, so the
      sum stays below 2^32 and the addition cannot overflow. */
  function Center(m: MortonRectangle): (c: UInt32)
    ensures 2 * c <= ToNat(m.min.key) + ToNat(m.max.key) <= 2 * c + 2
  {
    ToNat(m.min.key) / 2 + ToNat(m.max.key) / 2
  }
}
