/**
 Plane geometry over `real` used by the pixel eraser: squared distances in
 place of `Math.hypot`, and the circle-versus-segment test with its
 closest-point characterisation.
 */
module Geometry {
  import opened Base

  function Sq(u: real): real {
    u * u
  }

  /** The squared Euclidean distance between `p` and `q`. */
  function Dist2(p: Point, q: Point): real {
    Sq(p.x - q.x) + Sq(p.y - q.y)
  }

  /**
   `Math.hypot(c - p) <= r`. The distance is never negative, so it is at most
   `r` exactly when `r` is non-negative and the squared distance is at most `r * r`.
   */
  predicate WithinRadius(c: Point, p: Point, r: real) {
    r >= 0.0 && Dist2(c, p) <= r * r
  }

  /** The point at parameter `t` on the segment from `a` to `b`. */
  function Lerp(a: Point, b: Point, t: real): Point {
    Point(a.x + t * (b.x - a.x), a.y + t * (b.y - a.y))
  }

  /** `Math.max(0, Math.min(1, v))`. */
  function Clamp01(v: real): (r: real)
    ensures 0.0 <= r <= 1.0
    ensures 0.0 <= v <= 1.0 ==> r == v
    ensures v < 0.0 ==> r == 0.0
    ensures v > 1.0 ==> r == 1.0
  {
    if v < 0.0 then 0.0 else if v > 1.0 then 1.0 else v
  }

  /** The dot product of `c - s.a` with the direction `s.b - s.a`. */
  function Dot(c: Point, s: Segment): real {
    (c.x - s.a.x) * (s.b.x - s.a.x) + (c.y - s.a.y) * (s.b.y - s.a.y)
  }

  /** The projection parameter of `c` onto the line through `s`, clamped to the segment. */
  function ProjectionParameter(c: Point, s: Segment): real
    requires Dist2(s.b, s.a) != 0.0
  {
    Clamp01(Dot(c, s) / Dist2(s.b, s.a))
  }

  /**
   The circle-versus-segment test of the pixel eraser: a hit when either
   endpoint is within the radius; otherwise a zero-length segment misses;
   otherwise a hit when the clamped projection of the centre is within the radius.
   */
  predicate CircleMeetsSegment(c: Point, r: real, s: Segment): (hit: bool)
    ensures WithinRadius(c, s.a, r) || WithinRadius(c, s.b, r) ==> hit
    ensures hit ==> r >= 0.0
    ensures Dist2(s.b, s.a) == 0.0 ==> (hit <==> WithinRadius(c, s.a, r))
  {
    ZeroLengthEndpointsAgree(s);
    if WithinRadius(c, s.a, r) || WithinRadius(c, s.b, r) then true
    else if Dist2(s.b, s.a) == 0.0 then false
    else WithinRadius(c, Lerp(s.a, s.b, ProjectionParameter(c, s)), r)
  }

  /** Some point of the closed segment `s` lies within `r` of `c`. */
  ghost predicate SegmentPointWithin(c: Point, r: real, s: Segment) {
    exists t: real :: 0.0 <= t <= 1.0 && WithinRadius(c, Lerp(s.a, s.b, t), r)
  }

  lemma SqOfDifference(u: real, v: real, t: real)
    ensures Sq(u - t * v) == Sq(u) - 2.0 * t * (u * v) + t * t * Sq(v)
  {
  }

  /** The squared distance from `c` to a point of the segment, as a quadratic in `t`. */
  lemma Dist2AlongSegment(c: Point, s: Segment, t: real)
    ensures Dist2(c, Lerp(s.a, s.b, t)) == Quadratic(Dist2(c, s.a), Dot(c, s), Dist2(s.b, s.a), t)
  {
    var p := Lerp(s.a, s.b, t);
    assert c.x - p.x == (c.x - s.a.x) - t * (s.b.x - s.a.x);
    assert c.y - p.y == (c.y - s.a.y) - t * (s.b.y - s.a.y);
    SqOfDifference(c.x - s.a.x, s.b.x - s.a.x, t);
    SqOfDifference(c.y - s.a.y, s.b.y - s.a.y, t);
  }

  lemma ProductNonNegative(u: real, v: real)
    requires (u >= 0.0 && v >= 0.0) || (u <= 0.0 && v <= 0.0)
    ensures u * v >= 0.0
  {
  }

  lemma ProductPositive(u: real, v: real)
    requires u > 0.0 && v > 0.0
    ensures u * v > 0.0
  {
  }

  lemma SqNonNegative(u: real)
    ensures Sq(u) >= 0.0
  {
    ProductNonNegative(u, u);
  }

  lemma SqPositive(u: real)
    requires u != 0.0
    ensures Sq(u) > 0.0
  {
    if u < 0.0 {
      calc {
        Sq(u);
      ==
        (-u) * (-u);
      > { ProductPositive(-u, -u); }
        0.0;
      }
    } else {
      calc {
        Sq(u);
      ==
        u * u;
      > { ProductPositive(u, u); }
        0.0;
      }
    }
  }

  lemma SqZero(u: real)
    requires Sq(u) <= 0.0
    ensures u == 0.0
  {
    if u != 0.0 {
      SqPositive(u);
    }
  }

  /** The quadratic `a - 2 * t * dot + t * t * len`. */
  function Quadratic(a: real, dot: real, len: real, t: real): real {
    a - 2.0 * t * dot + t * t * len
  }

  /**
   With `len > 0`, the quadratic takes its least value over [0, 1] at the
   clamped vertex `Clamp01(dot / len)`.
   */
  lemma QuadraticMinimumOnUnitInterval(a: real, dot: real, len: real, t: real)
    requires len > 0.0
    requires 0.0 <= t <= 1.0
    ensures Quadratic(a, dot, len, Clamp01(dot / len)) <= Quadratic(a, dot, len, t)
  {
    var p := Clamp01(dot / len);
    var diff := (t - p) * (len * (t + p) - 2.0 * dot);
    assert Quadratic(a, dot, len, t) - Quadratic(a, dot, len, p) == diff;
    var q := dot / len;
    assert q * len == dot;
    if q < 0.0 {
      assert dot < 0.0;
      assert len * t >= 0.0 by { ProductNonNegative(len, t); }
      ProductNonNegative(t, len * (t + p) - 2.0 * dot);
    } else if q > 1.0 {
      assert dot > len;
      assert len * t <= len by { ProductNonNegative(len, 1.0 - t); }
      ProductNonNegative(t - p, len * (t + p) - 2.0 * dot);
    } else {
      assert len * (t + p) - 2.0 * dot == len * (t - p);
      ProductNonNegative(t - p, t - p);
      ProductNonNegative((t - p) * (t - p), len);
      assert diff == ((t - p) * (t - p)) * len;
    }
  }

  /** The clamped projection is the point of the segment closest to `c`. */
  lemma ProjectionIsClosest(c: Point, s: Segment, t: real)
    requires Dist2(s.b, s.a) != 0.0
    requires 0.0 <= t <= 1.0
    ensures Dist2(c, Lerp(s.a, s.b, ProjectionParameter(c, s))) <= Dist2(c, Lerp(s.a, s.b, t))
  {
    SqNonNegative(s.b.x - s.a.x);
    SqNonNegative(s.b.y - s.a.y);
    var p := ProjectionParameter(c, s);
    Dist2AlongSegment(c, s, t);
    Dist2AlongSegment(c, s, p);
    QuadraticMinimumOnUnitInterval(Dist2(c, s.a), Dot(c, s), Dist2(s.b, s.a), t);
  }

  /** A segment of length zero has equal endpoints. */
  lemma ZeroLengthEndpointsAgree(s: Segment)
    ensures Dist2(s.b, s.a) == 0.0 ==> s.a == s.b
  {
    if Dist2(s.b, s.a) == 0.0 {
      ZeroLengthSegmentIsPoint(s, 1.0);
      assert Lerp(s.a, s.b, 1.0) == s.b;
    }
  }

  lemma ZeroLengthSegmentIsPoint(s: Segment, t: real)
    requires Dist2(s.b, s.a) == 0.0
    ensures Lerp(s.a, s.b, t) == s.a
  {
    SqNonNegative(s.b.x - s.a.x);
    SqNonNegative(s.b.y - s.a.y);
    SqZero(s.b.x - s.a.x);
    SqZero(s.b.y - s.a.y);
  }

  /**
   The circle-versus-segment test is exact: it reports a hit if and only if
   some point of the closed segment lies within the radius.
   */
  lemma CircleMeetsSegmentExact(c: Point, r: real, s: Segment)
    ensures CircleMeetsSegment(c, r, s) <==> SegmentPointWithin(c, r, s)
  {
    assert Lerp(s.a, s.b, 0.0) == s.a;
    assert Lerp(s.a, s.b, 1.0) == s.b;
    if CircleMeetsSegment(c, r, s) {
      if WithinRadius(c, s.a, r) {
        assert WithinRadius(c, Lerp(s.a, s.b, 0.0), r);
      } else if WithinRadius(c, s.b, r) {
        assert WithinRadius(c, Lerp(s.a, s.b, 1.0), r);
      } else {
        var p := ProjectionParameter(c, s);
        assert WithinRadius(c, Lerp(s.a, s.b, p), r);
      }
    }
    if SegmentPointWithin(c, r, s) {
      var t: real :| 0.0 <= t <= 1.0 && WithinRadius(c, Lerp(s.a, s.b, t), r);
      if !WithinRadius(c, s.a, r) && !WithinRadius(c, s.b, r) {
        if Dist2(s.b, s.a) == 0.0 {
          ZeroLengthSegmentIsPoint(s, t);
          assert false;
        }
        ProjectionIsClosest(c, s, t);
      }
    }
  }
}
