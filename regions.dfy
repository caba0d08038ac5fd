/** Shapes positioned in the plane and the point-containment query
    (`Shape`, `Body` and `impl Region for Body` in src/shape.rs). */
module Regions {
  import opened Points

  /** The geometric primitives. Only `Circle` has behaviour; the other two
      variants are declared but their queries are unimplemented. */
  datatype Shape =
    | Circle(radius: real)
    | Rectangle(width: real, height: real, rotation: real)
    | Polygon(points: seq<Point>, rotation: real)

  /** A shape anchored at a world position. */
  datatype Body = Body(pos: Point, shape: Shape)

  /** `Region::contains` for a circular body: `p` lies in the closed disc of the
      body's radius around its position. The rectangle and polygon arms abort in
      the source, so only circles may be queried.

      The disc contains its centre, lies inside the axis-aligned square of
      half-side `|radius|` around it, and contains the diamond of the same
      half-diagonal. */
  function Contains(b: Body, p: Point): (r: bool)
    requires b.shape.Circle?
    ensures p == b.pos ==> r
    ensures r ==> Abs(b.pos.x - p.x) <= Abs(b.shape.radius) && Abs(b.pos.y - p.y) <= Abs(b.shape.radius)
    ensures Abs(b.pos.x - p.x) + Abs(b.pos.y - p.y) <= Abs(b.shape.radius) ==> r
  {
    var d, radius := Sub(b.pos, p), b.shape.radius;
    SquareIsPositive(radius);
    DiscBetweenDiamondAndSquare(d, radius);
    LengthSquared(d) <= Square(radius)
  }

  /** A vector no longer than `radius` has both components within `|radius|`,
      and one whose components' magnitudes sum to at most `|radius|` is no longer
      than `radius`. */
  lemma DiscBetweenDiamondAndSquare(d: Point, radius: real)
    ensures LengthSquared(d) <= Square(radius) ==> Abs(d.x) <= Abs(radius) && Abs(d.y) <= Abs(radius)
    ensures Abs(d.x) + Abs(d.y) <= Abs(radius) ==> LengthSquared(d) <= Square(radius)
  {
    SquareIsPositive(d.x);
    SquareIsPositive(d.y);
    SquareIsMonotone(d.x, radius);
    SquareIsMonotone(d.y, radius);
    SquareIsMonotone(Abs(d.x) + Abs(d.y), radius);
    SquareOfSumBound(d.x, d.y);
  }

  /** The boundary belongs to the region: the point one radius to the right of the
      centre is contained, and any point further out on that line is not. */
  lemma ContainsBoundary(pos: Point, radius: real, eps: real)
    requires radius >= 0.0 && eps > 0.0
    ensures Contains(Body(pos, Circle(radius)), Point(pos.x + radius, pos.y))
    ensures !Contains(Body(pos, Circle(radius)), Point(pos.x + radius + eps, pos.y))
  {
  }

  /** Only the magnitude of the radius matters, and a larger magnitude gives a
      larger region. */
  lemma ContainsMonotoneInRadius(pos: Point, r1: real, r2: real, p: Point)
    requires Abs(r1) <= Abs(r2)
    requires Contains(Body(pos, Circle(r1)), p)
    ensures Contains(Body(pos, Circle(r2)), p)
    ensures Contains(Body(pos, Circle(-r1)), p)
  {
    SquareIsMonotone(r1, r2);
    SquareIsMonotone(-r1, r1);
  }

  /** Moving a body and a point by the same offset does not change containment. */
  lemma ContainsIsTranslationInvariant(b: Body, p: Point, d: Point)
    requires b.shape.Circle?
    ensures Contains(Body(Add(b.pos, d), b.shape), Add(p, d)) == Contains(b, p)
  {
  }
}
