/** The geometry helpers of the editor (public/Utils.js): squared
    distances, the squared distance from a point to a finite segment, and
    the inclusive point-in-rectangle test. Coordinates are reals; the
    square root of `distanceToSegment` is not modelled, so callers compare
    squared distances. */
module Geometry {

  datatype Point = Point(x: real, y: real)

  function Square(v: real): (r: real)
    ensures r >= 0.0
  {
    v * v
  }

  lemma SquarePositive(v: real)
    requires v != 0.0
    ensures Square(v) > 0.0
  {
    calc {
      Square(v);
    ==
      v * v;
    >
      0.0;
    }
  }

  /** The squared Euclidean distance: never negative, and zero exactly
      when the two points coincide. */
  function SquareDistance(p: Point, q: Point): (r: real)
    ensures r >= 0.0
  {
    Square(p.x - q.x) + Square(p.y - q.y)
  }

  lemma SquareDistanceZeroIff(p: Point, q: Point)
    ensures SquareDistance(p, q) == 0.0 <==> p == q
  {
    if p.x != q.x {
      SquarePositive(p.x - q.x);
    } else if p.y != q.y {
      SquarePositive(p.y - q.y);
    }
  }

  lemma SquareDistanceSymmetric(p: Point, q: Point)
    ensures SquareDistance(p, q) == SquareDistance(q, p)
  {
    calc {
      Square(p.x - q.x);
    ==
      (p.x - q.x) * (p.x - q.x);
    ==
      (q.x - p.x) * (q.x - p.x);
    ==
      Square(q.x - p.x);
    }
    calc {
      Square(p.y - q.y);
    ==
      (p.y - q.y) * (p.y - q.y);
    ==
      (q.y - p.y) * (q.y - p.y);
    ==
      Square(q.y - p.y);
    }
  }

  /** The point a fraction `t` of the way from `s` to `e`. */
  function Lerp(s: Point, e: Point, t: real): Point
  {
    Point(s.x + t * (e.x - s.x), s.y + t * (e.y - s.y))
  }

  function Clamp01(t: real): (r: real)
    ensures 0.0 <= r <= 1.0
    ensures 0.0 <= t <= 1.0 ==> r == t
    ensures t < 0.0 ==> r == 0.0
    ensures t > 1.0 ==> r == 1.0
  {
    if 1.0 < t then 1.0 else if t < 0.0 then 0.0 else t
  }

  /** The dot product of `p - s` and `e - s`. */
  function Dot(p: Point, s: Point, e: Point): real
  {
    (p.x - s.x) * (e.x - s.x) + (p.y - s.y) * (e.y - s.y)
  }

  /** The squared distance from `p` to the closed segment from `s` to `e`:
      a degenerate segment falls back to the distance to its one point;
      otherwise the projection of `p` on the segment's line is clamped to
      the segment, so the reference point always lies on it. */
  function SquareDistanceToSegment(p: Point, s: Point, e: Point): (r: real)
    ensures r >= 0.0
    ensures s == e ==> r == SquareDistance(p, s)
    ensures exists t :: 0.0 <= t <= 1.0 && r == SquareDistance(p, Lerp(s, e, t))
  {
    var squaredDist := SquareDistance(s, e);
    if squaredDist == 0.0 then
      assert Lerp(s, e, 0.0) == s;
      SquareDistance(p, s)
    else
      var t := Clamp01(Dot(p, s, e) / squaredDist);
      SquareDistance(p, Lerp(s, e, t))
  }

  /** The square of `a - u*d`, expanded. */
  lemma SquareExpansion(a: real, d: real, u: real)
    ensures Square(a - u * d) == Square(a) - 2.0 * u * (a * d) + u * u * Square(d)
  {
  }

  /** The quadratic `A - 2*u*D + u*u*L` in `u`. */
  function Quadratic(A: real, D: real, L: real, u: real): real
  {
    A - 2.0 * u * D + u * u * L
  }

  lemma LerpOffset(p: Point, s: Point, e: Point, u: real)
    ensures SquareDistance(p, Lerp(s, e, u))
            == Square((p.x - s.x) - u * (e.x - s.x)) + Square((p.y - s.y) - u * (e.y - s.y))
  {
  }

  /** The expansion with the coefficients still spelled out per coordinate. */
  lemma LerpDistanceRaw(p: Point, s: Point, e: Point, u: real)
    ensures SquareDistance(p, Lerp(s, e, u))
            == Quadratic(Square(p.x - s.x) + Square(p.y - s.y),
                         (p.x - s.x) * (e.x - s.x) + (p.y - s.y) * (e.y - s.y),
                         Square(e.x - s.x) + Square(e.y - s.y), u)
  {
    calc {
      SquareDistance(p, Lerp(s, e, u));
    == { LerpOffset(p, s, e, u); }
      Square((p.x - s.x) - u * (e.x - s.x)) + Square((p.y - s.y) - u * (e.y - s.y));
    == { SquareExpansion(p.x - s.x, e.x - s.x, u); SquareExpansion(p.y - s.y, e.y - s.y, u); }
      Quadratic(Square(p.x - s.x) + Square(p.y - s.y),
                (p.x - s.x) * (e.x - s.x) + (p.y - s.y) * (e.y - s.y),
                Square(e.x - s.x) + Square(e.y - s.y), u);
    }
  }

  lemma CoefficientsAsDistances(p: Point, s: Point, e: Point, u: real)
    ensures Quadratic(Square(p.x - s.x) + Square(p.y - s.y),
                      (p.x - s.x) * (e.x - s.x) + (p.y - s.y) * (e.y - s.y),
                      Square(e.x - s.x) + Square(e.y - s.y), u)
            == Quadratic(SquareDistance(p, s), Dot(p, s, e), SquareDistance(s, e), u)
  {
    ConstantAsDistance(p, s, (p.x - s.x) * (e.x - s.x) + (p.y - s.y) * (e.y - s.y),
                       Square(e.x - s.x) + Square(e.y - s.y), u);
    LinearAsDot(p, s, e, SquareDistance(p, s), Square(e.x - s.x) + Square(e.y - s.y), u);
    LeadingAsDistance(s, e, SquareDistance(p, s), Dot(p, s, e), u);
  }

  lemma ConstantAsDistance(p: Point, s: Point, D: real, L: real, u: real)
    ensures Quadratic(Square(p.x - s.x) + Square(p.y - s.y), D, L, u)
            == Quadratic(SquareDistance(p, s), D, L, u)
  {
  }

  lemma LinearAsDot(p: Point, s: Point, e: Point, A: real, L: real, u: real)
    ensures Quadratic(A, (p.x - s.x) * (e.x - s.x) + (p.y - s.y) * (e.y - s.y), L, u)
            == Quadratic(A, Dot(p, s, e), L, u)
  {
  }

  lemma LeadingAsDistance(s: Point, e: Point, A: real, D: real, u: real)
    ensures Quadratic(A, D, Square(e.x - s.x) + Square(e.y - s.y), u)
            == Quadratic(A, D, SquareDistance(s, e), u)
  {
    SquareDistanceSymmetric(s, e);
  }

  /** The squared distance to a point of the segment, written as a
      quadratic in the fraction `u`. */
  lemma LerpDistanceExpansion(p: Point, s: Point, e: Point, u: real)
    ensures SquareDistance(p, Lerp(s, e, u))
            == Quadratic(SquareDistance(p, s), Dot(p, s, e), SquareDistance(s, e), u)
  {
    LerpDistanceRaw(p, s, e, u);
    CoefficientsAsDistances(p, s, e, u);
  }

  lemma MulNonNegative(a: real, b: real)
    requires a >= 0.0 && b >= 0.0
    ensures a * b >= 0.0
  {
  }

  /** The clamped parameter `t` minimises `u*u - 2*u*t0` over [0, 1]. */
  lemma ClampMinimises(t0: real, u: real)
    requires 0.0 <= u <= 1.0
    ensures var t := Clamp01(t0); u * u - 2.0 * u * t0 >= t * t - 2.0 * t * t0
  {
    var t := Clamp01(t0);
    var diff := (u * u - 2.0 * u * t0) - (t * t - 2.0 * t * t0);
    assert diff == (u - t) * (u + t - 2.0 * t0);
    if 1.0 < t0 {
      MulNonNegative(1.0 - u, 2.0 * t0 - 1.0 - u);
      assert diff == (1.0 - u) * (2.0 * t0 - 1.0 - u);
    } else if t0 < 0.0 {
      MulNonNegative(u, u - 2.0 * t0);
    } else {
      calc {
        diff;
      ==
        (u - t0) * (u - t0);
      ==
        Square(u - t0);
      >=
        0.0;
      }
    }
  }

  /** With `D == t0 * L`, the expansion of the squared distance becomes
      `A + L * (u*u - 2*u*t0)`. */
  lemma FactorExpansion(A: real, D: real, L: real, t0: real, u: real)
    requires D == t0 * L
    ensures A - 2.0 * u * D + u * u * L == A + L * (u * u - 2.0 * u * t0)
  {
  }

  lemma ScaleMonotone(A: real, L: real, x: real, y: real)
    requires L >= 0.0 && x >= y
    ensures A + L * y <= A + L * x
  {
    MulNonNegative(L, x - y);
  }

  /** Over plain reals: the clamped projection parameter gives the least
      value of the expanded squared distance on [0, 1]. */
  lemma ClampedParameterIsBest(A: real, D: real, L: real, u: real)
    requires L > 0.0 && 0.0 <= u <= 1.0
    ensures Quadratic(A, D, L, Clamp01(D / L)) <= Quadratic(A, D, L, u)
  {
    var t0 := D / L;
    var t := Clamp01(t0);
    assert D == t0 * L;
    FactorExpansion(A, D, L, t0, t);
    FactorExpansion(A, D, L, t0, u);
    ClampMinimises(t0, u);
    ScaleMonotone(A, L, u * u - 2.0 * u * t0, t * t - 2.0 * t * t0);
  }

  /** The result is the least squared distance from `p` to any point of
      the closed segment. */
  lemma SegmentDistanceIsMinimum(p: Point, s: Point, e: Point, u: real)
    requires 0.0 <= u <= 1.0
    ensures SquareDistanceToSegment(p, s, e) <= SquareDistance(p, Lerp(s, e, u))
  {
    var L := SquareDistance(s, e);
    if L == 0.0 {
      SquareDistanceZeroIff(s, e);
      assert Lerp(s, e, u) == s;
    } else {
      var t := Clamp01(Dot(p, s, e) / L);
      assert SquareDistanceToSegment(p, s, e) == SquareDistance(p, Lerp(s, e, t));
      LerpDistanceExpansion(p, s, e, t);
      LerpDistanceExpansion(p, s, e, u);
      ClampedParameterIsBest(SquareDistance(p, s), Dot(p, s, e), L, u);
    }
  }

  /** The distance to the segment is at most the distance to either end. */
  lemma SegmentDistanceAtMostEndpoints(p: Point, s: Point, e: Point)
    ensures SquareDistanceToSegment(p, s, e) <= SquareDistance(p, s)
    ensures SquareDistanceToSegment(p, s, e) <= SquareDistance(p, e)
  {
    SegmentDistanceIsMinimum(p, s, e, 0.0);
    assert Lerp(s, e, 0.0) == s;
    SegmentDistanceIsMinimum(p, s, e, 1.0);
    assert Lerp(s, e, 1.0) == e;
  }

  /** A point on the closed segment is at distance zero from it. */
  lemma SegmentDistanceZeroOnSegment(s: Point, e: Point, u: real)
    requires 0.0 <= u <= 1.0
    ensures SquareDistanceToSegment(Lerp(s, e, u), s, e) == 0.0
  {
    SegmentDistanceIsMinimum(Lerp(s, e, u), s, e, u);
  }

  /** The inclusive rectangle test: a point on an edge or a corner is in
      bounds. */
  function InBounds(p: Point, origin: Point, width: real, height: real): (r: bool)
    ensures r ==> width >= 0.0 && height >= 0.0
    ensures p == origin ==> (r <==> width >= 0.0 && height >= 0.0)
  {
    p.x >= origin.x && p.x <= origin.x + width && p.y >= origin.y && p.y <= origin.y + height
  }

  /** The four corners of a rectangle of non-negative size are in bounds,
      and a rectangle of negative width or height contains no point. */
  lemma InBoundsCorners(origin: Point, width: real, height: real)
    ensures width >= 0.0 && height >= 0.0 ==>
              && InBounds(origin, origin, width, height)
              && InBounds(Point(origin.x + width, origin.y), origin, width, height)
              && InBounds(Point(origin.x, origin.y + height), origin, width, height)
              && InBounds(Point(origin.x + width, origin.y + height), origin, width, height)
    ensures width < 0.0 || height < 0.0 ==> forall p :: !InBounds(p, origin, width, height)
  {
  }

  /** Moving the point and the rectangle by the same offset does not
      change the outcome of the test. */
  lemma InBoundsTranslation(p: Point, origin: Point, width: real, height: real, dx: real, dy: real)
    ensures InBounds(Point(p.x + dx, p.y + dy), Point(origin.x + dx, origin.y + dy), width, height)
            == InBounds(p, origin, width, height)
  {
  }
}
