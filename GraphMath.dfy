// Geometry of the editor (src/utils/GraphMathUtils.js), over the reals and
// with squared distances in place of `Math.sqrt`.
//
// The non-linear facts are proved once, over plain real parameters
// (`WithinZeroRadius`, `ClosestOnLine`), and the point-level lemmas reach
// them only through the functions `WithinRadius` and `OffsetSq`.

module GraphMath {

  datatype Point = Point(x: real, y: real)

  /** dx² + dy². */
  function SqLen(dx: real, dy: real): (r: real)
    ensures !(r < 0.0)
  {
    dx * dx + dy * dy
  }

  /** The squared Euclidean distance between two points. */
  function SqDist(p: Point, q: Point): (d: real)
    ensures !(d < 0.0)
  {
    SqLen(p.x - q.x, p.y - q.y)
  }

  /** dx² + dy² <= r², the test `isPointInCircle` applies to the offsets. */
  predicate WithinRadius(dx: real, dy: real, r: real)
  {
    dx * dx + dy * dy <= r * r
  }

  /** `isPointInCircle`: the point lies on or inside the circle of radius `r` about `c`. */
  predicate IsPointInCircle(p: Point, c: Point, r: real)
  {
    WithinRadius(p.x - c.x, p.y - c.y, r)
  }

  lemma SumSquaresPositive(a: real, b: real)
    requires a != 0.0 || b != 0.0
    ensures a * a + b * b > 0.0
  {
    if a != 0.0 {
      assert a * a > 0.0;
      assert b * b >= 0.0;
    } else {
      assert b * b > 0.0;
    }
  }

  /** With radius 0 only the zero offset passes the test. */
  lemma WithinZeroRadius(dx: real, dy: real, r: real)
    requires r == 0.0
    ensures WithinRadius(dx, dy, r) <==> dx == 0.0 && dy == 0.0
  {
    if dx != 0.0 || dy != 0.0 {
      SumSquaresPositive(dx, dy);
    }
  }

  /** The centre of a circle is inside it, whatever the radius (0 included). */
  lemma CentreInside(c: Point, r: real)
    ensures IsPointInCircle(c, c, r)
  {
    assert r * r >= 0.0;
  }

  /** With radius 0, the centre is the only point inside. */
  lemma ZeroRadiusOnlyCentre(p: Point, c: Point)
    ensures IsPointInCircle(p, c, 0.0) <==> p == c
  {
    WithinZeroRadius(p.x - c.x, p.y - c.y, 0.0);
  }

  lemma WithinNegatedRadius(dx: real, dy: real, r: real)
    ensures WithinRadius(dx, dy, -r) == WithinRadius(dx, dy, r)
  {
    assert (-r) * (-r) == r * r;
  }

  /** A negative radius answers as its absolute value does, since r·r = (-r)·(-r). */
  lemma NegativeRadius(p: Point, c: Point, r: real)
    ensures IsPointInCircle(p, c, -r) == IsPointInCircle(p, c, r)
  {
    WithinNegatedRadius(p.x - c.x, p.y - c.y, r);
  }

  lemma WithinBoundary(r: real)
    requires r >= 0.0
    ensures WithinRadius(r, 0.0, r)
    ensures !WithinRadius(r + 1.0, 0.0, r)
  {
    assert (r + 1.0) * (r + 1.0) == r * r + 2.0 * r + 1.0;
  }

  /** A point at exactly distance r is inside; one at distance r + 1 is outside. */
  lemma CircleBoundary(c: Point, r: real)
    requires r >= 0.0
    ensures IsPointInCircle(Point(c.x + r, c.y), c, r)
    ensures !IsPointInCircle(Point(c.x + r + 1.0, c.y), c, r)
  {
    assert (c.x + r) - c.x == r;
    assert (c.x + r + 1.0) - c.x == r + 1.0;
    WithinBoundary(r);
  }

  /**
   * The projection parameter of the offset (a, b) onto the direction (c, d):
   * dot / lenSq, or -1 when the direction has length 0.
   */
  function LineParam(a: real, b: real, c: real, d: real): real
  {
    if c * c + d * d != 0.0 then (a * c + b * d) / (c * c + d * d) else -1.0
  }

  /** The parameter clamped to [0, 1]. */
  function Clamp(u: real): (w: real)
    ensures 0.0 <= w <= 1.0
    ensures 0.0 <= u <= 1.0 ==> w == u
  {
    if u < 0.0 then 0.0 else if u > 1.0 then 1.0 else u
  }

  /** Squared length of (a, b) - x·(c, d): the squared distance to the point at parameter x. */
  function OffsetSq(a: real, b: real, c: real, d: real, x: real): real
  {
    SqLen(a - x * c, b - x * d)
  }

  lemma Expand(a: real, b: real, c: real, d: real, x: real)
    ensures OffsetSq(a, b, c, d, x)
         == (a * a + b * b) - 2.0 * x * (a * c + b * d) + x * x * (c * c + d * d)
  {
  }

  lemma QuadraticDifference(k: real, dot: real, len: real, t: real, w: real)
    ensures (k - 2.0 * t * dot + t * t * len) - (k - 2.0 * w * dot + w * w * len)
         == (t - w) * ((t + w) * len - 2.0 * dot)
  {
  }

  lemma ProductNonNegative(a: real, b: real)
    requires (a >= 0.0 && b >= 0.0) || (a <= 0.0 && b <= 0.0)
    ensures a * b >= 0.0
  {
  }

  lemma DegenerateDirection(c: real, d: real)
    requires !(c * c + d * d != 0.0)
    ensures c == 0.0 && d == 0.0
  {
    assert WithinRadius(c, d, 0.0);
    WithinZeroRadius(c, d, 0.0);
  }

  lemma ParamOfProperDirection(a: real, b: real, c: real, d: real)
    requires c * c + d * d != 0.0
    ensures c * c + d * d > 0.0
    ensures LineParam(a, b, c, d) * (c * c + d * d) == a * c + b * d
  {
  }

  /** The quadratic x ↦ OffsetSq(a, b, c, d, x), with positive leading coefficient, is least over [0, 1] at its clamped vertex. */
  lemma ClampedMinimum(a: real, b: real, c: real, d: real, t: real)
    requires c * c + d * d != 0.0
    requires 0.0 <= t <= 1.0
    ensures var w := Clamp(LineParam(a, b, c, d));
            (t - w) * ((t + w) * (c * c + d * d) - 2.0 * (a * c + b * d)) >= 0.0
  {
    ParamOfProperDirection(a, b, c, d);
    var u := LineParam(a, b, c, d);
    if u < 0.0 {
      ProductNonNegative(-u, c * c + d * d);
      ProductNonNegative(t, c * c + d * d);
      ProductNonNegative(t, t * (c * c + d * d) - 2.0 * (a * c + b * d));
    } else if u > 1.0 {
      ProductNonNegative(u - 1.0, c * c + d * d);
      ProductNonNegative(1.0 - t, c * c + d * d);
      ProductNonNegative(t - 1.0, (t + 1.0) * (c * c + d * d) - 2.0 * (a * c + b * d));
    } else {
      ProductNonNegative(t - u, t - u);
      ProductNonNegative((t - u) * (t - u), c * c + d * d);
    }
  }

  /** No parameter in [0, 1] is nearer than the clamped projection parameter. */
  lemma ClosestOnLine(a: real, b: real, c: real, d: real, t: real)
    requires 0.0 <= t <= 1.0
    ensures var w := Clamp(LineParam(a, b, c, d));
            OffsetSq(a, b, c, d, w) <= OffsetSq(a, b, c, d, t)
  {
    var w := Clamp(LineParam(a, b, c, d));
    Expand(a, b, c, d, t);
    Expand(a, b, c, d, w);
    if c * c + d * d != 0.0 {
      QuadraticDifference(a * a + b * b, a * c + b * d, c * c + d * d, t, w);
      ClampedMinimum(a, b, c, d, t);
    } else {
      DegenerateDirection(c, d);
    }
  }

  /** The point of the segment `s`–`e` at parameter `t`. */
  function Along(s: Point, e: Point, t: real): Point
  {
    Point(s.x + t * (e.x - s.x), s.y + t * (e.y - s.y))
  }

  /** `param` in `distanceToLineSegment`. */
  function SegmentParam(p: Point, s: Point, e: Point): real
  {
    LineParam(p.x - s.x, p.y - s.y, e.x - s.x, e.y - s.y)
  }

  /** The point (xx, yy) that `distanceToLineSegment` measures to. */
  function NearestPoint(p: Point, s: Point, e: Point): Point
  {
    var t := SegmentParam(p, s, e);
    if t < 0.0 then s else if t > 1.0 then e else Along(s, e, t)
  }

  /** `distanceToLineSegment`, squared. */
  function SquaredDistanceToSegment(p: Point, s: Point, e: Point): real
  {
    SqDist(p, NearestPoint(p, s, e))
  }

  lemma NearestIsClamped(p: Point, s: Point, e: Point)
    ensures NearestPoint(p, s, e) == Along(s, e, Clamp(SegmentParam(p, s, e)))
  {
  }

  lemma DistanceAlong(p: Point, s: Point, e: Point, x: real)
    ensures SqDist(p, Along(s, e, x)) == OffsetSq(p.x - s.x, p.y - s.y, e.x - s.x, e.y - s.y, x)
  {
    assert p.x - Along(s, e, x).x == (p.x - s.x) - x * (e.x - s.x);
    assert p.y - Along(s, e, x).y == (p.y - s.y) - x * (e.y - s.y);
  }

  /** For a zero-length segment the nearest point is its start, so the distance is point-to-point. */
  lemma DegenerateSegment(p: Point, s: Point)
    ensures NearestPoint(p, s, s) == s
    ensures SquaredDistanceToSegment(p, s, s) == SqDist(p, s)
  {
  }

  /** The start when param < 0, the end when param > 1, and otherwise a point of the segment. */
  lemma NearestPointOnSegment(p: Point, s: Point, e: Point)
    ensures SegmentParam(p, s, e) < 0.0 ==> NearestPoint(p, s, e) == s
    ensures SegmentParam(p, s, e) > 1.0 ==> NearestPoint(p, s, e) == e
    ensures exists t :: 0.0 <= t <= 1.0 && NearestPoint(p, s, e) == Along(s, e, t)
  {
    NearestIsClamped(p, s, e);
  }

  /** The measured point is the closest point of the segment: no point of it is nearer to `p`. */
  lemma NearestPointIsClosest(p: Point, s: Point, e: Point, t: real)
    requires 0.0 <= t <= 1.0
    ensures SquaredDistanceToSegment(p, s, e) <= SqDist(p, Along(s, e, t))
  {
    var w := Clamp(SegmentParam(p, s, e));
    NearestIsClamped(p, s, e);
    DistanceAlong(p, s, e, t);
    DistanceAlong(p, s, e, w);
    ClosestOnLine(p.x - s.x, p.y - s.y, e.x - s.x, e.y - s.y, t);
  }

  /** Every point of the segment is at distance 0 from it. */
  lemma PointOnSegmentAtZero(s: Point, e: Point, t: real)
    requires 0.0 <= t <= 1.0
    ensures SquaredDistanceToSegment(Along(s, e, t), s, e) == 0.0
  {
    var p := Along(s, e, t);
    NearestPointIsClosest(p, s, e, t);
    assert SqDist(p, p) == SqLen(0.0, 0.0);
  }

  /** (50, 50) against the segment (100, 100)–(200, 200): squared distance 5000. */
  lemma OffSegmentExample()
    ensures SquaredDistanceToSegment(Point(50.0, 50.0), Point(100.0, 100.0), Point(200.0, 200.0)) == 5000.0
  {
    assert SegmentParam(Point(50.0, 50.0), Point(100.0, 100.0), Point(200.0, 200.0)) == -0.5;
  }

  /** `calculateMidpoint`. */
  function Midpoint(a: Point, b: Point): Point
  {
    Point((a.x + b.x) / 2.0, (a.y + b.y) / 2.0)
  }

  /** The midpoint is the point of the segment at parameter 1/2, equally far from both ends, and on the segment. */
  lemma MidpointOnSegment(a: Point, b: Point)
    ensures Midpoint(a, b) == Along(a, b, 0.5)
    ensures SqDist(a, Midpoint(a, b)) == SqDist(Midpoint(a, b), b)
    ensures SquaredDistanceToSegment(Midpoint(a, b), a, b) == 0.0
  {
    PointOnSegmentAtZero(a, b, 0.5);
    assert a.x - Midpoint(a, b).x == Midpoint(a, b).x - b.x;
    assert a.y - Midpoint(a, b).y == Midpoint(a, b).y - b.y;
  }

  /** `screenToWorldCoordinates`: undo the pan, then the zoom. */
  function ScreenToWorld(screen: Point, pan: Point, zoom: real): Point
    requires zoom != 0.0
  {
    Point((screen.x - pan.x) / zoom, (screen.y - pan.y) / zoom)
  }

  /** The drawing transform that `screenToWorldCoordinates` inverts. */
  function WorldToScreen(world: Point, pan: Point, zoom: real): Point
  {
    Point(world.x * zoom + pan.x, world.y * zoom + pan.y)
  }

  /** The two transforms are inverse to each other for any non-zero zoom. */
  lemma ScreenWorldRoundTrip(p: Point, pan: Point, zoom: real)
    requires zoom != 0.0
    ensures ScreenToWorld(WorldToScreen(p, pan, zoom), pan, zoom) == p
    ensures WorldToScreen(ScreenToWorld(p, pan, zoom), pan, zoom) == p
  {
  }
}
