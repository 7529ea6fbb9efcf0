/** The circle of interest through three clicked points: the closed-form
    circumcentre, a collinearity test with a front-end-specific tolerance,
    and the squared radius. */
module CircleFit {
  import opened Basics

  /** `abs(d) < 1e-10` rejects three points in the Tk front end, `abs(D) <
      1e-6` in the Qt one. */
  const TkTolerance: real := 0.0000000001
  const QtTolerance: real := 0.000001

  function Tolerance(v: Frontend): real {
    if v == Tk then TkTolerance else QtTolerance
  }

  /** `d = 2 * (ax * (by - cy) + bx * (cy - ay) + cx * (ay - by))`. */
  function Determinant(a: Point, b: Point, c: Point): real {
    2.0 * (a.x * (b.y - c.y) + b.x * (c.y - a.y) + c.x * (a.y - b.y))
  }

  /** The cross product of b - a and c - a: zero exactly for collinear
      points. */
  function Cross(a: Point, b: Point, c: Point): real {
    (b.x - a.x) * (c.y - a.y) - (b.y - a.y) * (c.x - a.x)
  }

  /** The determinant is twice the cross product, so it vanishes exactly when
      the three points are collinear. */
  lemma DeterminantIsTwiceCross(a: Point, b: Point, c: Point)
    ensures Determinant(a, b, c) == 2.0 * Cross(a, b, c)
    ensures Determinant(a, b, c) == 0.0 <==> Cross(a, b, c) == 0.0
  {
  }

  function SqNorm(p: Point): real { p.x * p.x + p.y * p.y }

  /** The numerators of the closed-form circumcentre `(ux, uy)`. */
  function NumX(a: Point, b: Point, c: Point): real {
    SqNorm(a) * (b.y - c.y) + SqNorm(b) * (c.y - a.y) + SqNorm(c) * (a.y - b.y)
  }

  function NumY(a: Point, b: Point, c: Point): real {
    SqNorm(a) * (c.x - b.x) + SqNorm(b) * (a.x - c.x) + SqNorm(c) * (b.x - a.x)
  }

  /** The closed-form circumcentre `(ux, uy)`. */
  function Circumcenter(a: Point, b: Point, c: Point): Point
    requires Determinant(a, b, c) != 0.0
  {
    Point(NumX(a, b, c) / Determinant(a, b, c), NumY(a, b, c) / Determinant(a, b, c))
  }

  /** The polynomial identity behind the closed form, over plain numbers:
      with d = 2 (x1 (y2 - y3) + x2 (y3 - y1) + x3 (y1 - y2)), the numerators
      of the centre satisfy the perpendicular-bisector equation of the first
      two points scaled by d, whatever values stand in for the three squared
      norms. */
  lemma ScalarBisectorIdentity(x1: real, y1: real, x2: real, y2: real, x3: real, y3: real, A: real, B: real, C: real)
    ensures 2.0 * ((A * (y2 - y3) + B * (y3 - y1) + C * (y1 - y2)) * (x1 - x2)
                 + (A * (x3 - x2) + B * (x1 - x3) + C * (x2 - x1)) * (y1 - y2))
         == 2.0 * (x1 * (y2 - y3) + x2 * (y3 - y1) + x3 * (y1 - y2)) * (A - B)
  {
    var d2 := x1 * (y2 - y3) + x2 * (y3 - y1) + x3 * (y1 - y2);
    var alpha := (y2 - y3) * (x1 - x2) + (x3 - x2) * (y1 - y2);
    var beta := (y3 - y1) * (x1 - x2) + (x1 - x3) * (y1 - y2);
    var gamma := (y1 - y2) * (x1 - x2) + (x2 - x1) * (y1 - y2);
    Coefficients(x1, y1, x2, y2, x3, y3);
    Regroup(A, B, C, y2 - y3, y3 - y1, y1 - y2, x3 - x2, x1 - x3, x2 - x1, x1 - x2, y1 - y2);
    Collect(A, B, C, alpha, beta, gamma, d2);
  }

  /** The coefficients of |a|^2, |b|^2 and |c|^2 in the bisector sum. */
  lemma Coefficients(x1: real, y1: real, x2: real, y2: real, x3: real, y3: real)
    ensures (y2 - y3) * (x1 - x2) + (x3 - x2) * (y1 - y2) == x1 * (y2 - y3) + x2 * (y3 - y1) + x3 * (y1 - y2)
    ensures (y3 - y1) * (x1 - x2) + (x1 - x3) * (y1 - y2) == -(x1 * (y2 - y3) + x2 * (y3 - y1) + x3 * (y1 - y2))
    ensures (y1 - y2) * (x1 - x2) + (x2 - x1) * (y1 - y2) == 0.0
  {
  }

  lemma Collect(A: real, B: real, C: real, alpha: real, beta: real, gamma: real, d2: real)
    requires alpha == d2 && beta == -d2 && gamma == 0.0
    ensures 2.0 * (A * alpha + B * beta + C * gamma) == 2.0 * d2 * (A - B)
  {
  }

  /** Regrouping `(A p + B q + C r) s + (A p' + B q' + C r') t` by A, B, C. */
  lemma Regroup(A: real, B: real, C: real, p: real, q: real, r: real,
                p': real, q': real, r': real, s: real, t: real)
    ensures (A * p + B * q + C * r) * s + (A * p' + B * q' + C * r') * t
         == A * (p * s + p' * t) + B * (q * s + q' * t) + C * (r * s + r' * t)
  {
  }

  /** The bisector identity with the numerators and the determinant named. */
  lemma ScalarOnBisector(x1: real, y1: real, x2: real, y2: real, x3: real, y3: real, A: real, B: real, C: real,
                         nx: real, ny: real, d: real)
    requires nx == A * (y2 - y3) + B * (y3 - y1) + C * (y1 - y2)
    requires ny == A * (x3 - x2) + B * (x1 - x3) + C * (x2 - x1)
    requires d == 2.0 * (x1 * (y2 - y3) + x2 * (y3 - y1) + x3 * (y1 - y2))
    ensures 2.0 * (nx * (x1 - x2) + ny * (y1 - y2)) == d * (A - B)
  {
    ScalarBisectorIdentity(x1, y1, x2, y2, x3, y3, A, B, C);
  }

  lemma QuotientTimes(n: real, d: real, q: real)
    requires d != 0.0 && q == n / d
    ensures q * d == n
  {
  }

  lemma QuotientsTimes(nx: real, ny: real, d: real, ux: real, uy: real)
    requires d != 0.0 && ux == nx / d && uy == ny / d
    ensures ux * d == nx && uy * d == ny
  {
    QuotientTimes(nx, d, ux);
    QuotientTimes(ny, d, uy);
  }

  lemma ScaleSum(d: real, ux: real, uy: real, p: real, q: real, nx: real, ny: real)
    requires ux * d == nx && uy * d == ny
    ensures d * (2.0 * (ux * p + uy * q)) == 2.0 * (nx * p + ny * q)
  {
  }

  lemma CancelFactor(d: real, l: real, r: real)
    requires d != 0.0 && d * l == d * r
    ensures l == r
  {
  }

  /** Dividing the scaled bisector equation by d: a solution (ux, uy) of
      ux d = nx, uy d = ny satisfies the unscaled one. */
  lemma SolvedOnBisector(d: real, ux: real, uy: real, p: real, q: real, nx: real, ny: real, A: real, B: real)
    requires d != 0.0 && ux * d == nx && uy * d == ny
    requires 2.0 * (nx * p + ny * q) == d * (A - B)
    ensures 2.0 * (ux * p + uy * q) == A - B
  {
    ScaleSum(d, ux, uy, p, q, nx, ny);
    CancelFactor(d, 2.0 * (ux * p + uy * q), A - B);
  }

  /** The closed-form centre satisfies the bisector equation of the first two
      points. */
  lemma ScalarCenterOnBisector(x1: real, y1: real, x2: real, y2: real, x3: real, y3: real, ux: real, uy: real,
                               A: real, B: real, C: real, nx: real, ny: real, d: real)
    requires nx == A * (y2 - y3) + B * (y3 - y1) + C * (y1 - y2)
    requires ny == A * (x3 - x2) + B * (x1 - x3) + C * (x2 - x1)
    requires d == 2.0 * (x1 * (y2 - y3) + x2 * (y3 - y1) + x3 * (y1 - y2))
    requires d != 0.0 && ux * d == nx && uy * d == ny
    ensures 2.0 * (ux * (x1 - x2) + uy * (y1 - y2)) == A - B
  {
    ScalarOnBisector(x1, y1, x2, y2, x3, y3, A, B, C, nx, ny, d);
    SolvedOnBisector(d, ux, uy, x1 - x2, y1 - y2, nx, ny, A, B);
  }

  /** The difference of the squared distances from (ux, uy) to two points is
      affine in (ux, uy): zero exactly on their perpendicular bisector. */
  lemma ScalarDistanceDifference(x1: real, y1: real, x2: real, y2: real, ux: real, uy: real,
                                 A: real, B: real, da: real, db: real)
    requires A == x1 * x1 + y1 * y1 && B == x2 * x2 + y2 * y2
    requires da == (x1 - ux) * (x1 - ux) + (y1 - uy) * (y1 - uy)
    requires db == (x2 - ux) * (x2 - ux) + (y2 - uy) * (y2 - uy)
    ensures da - db == A - B - 2.0 * (ux * (x1 - x2) + uy * (y1 - y2))
  {
  }

  /** The closed-form centre is as far from the first point as from the
      second, over plain numbers. */
  lemma ScalarEquidistantAB(x1: real, y1: real, x2: real, y2: real, x3: real, y3: real, ux: real, uy: real,
                            A: real, B: real, C: real, nx: real, ny: real, d: real, da: real, db: real)
    requires A == x1 * x1 + y1 * y1 && B == x2 * x2 + y2 * y2
    requires nx == A * (y2 - y3) + B * (y3 - y1) + C * (y1 - y2)
    requires ny == A * (x3 - x2) + B * (x1 - x3) + C * (x2 - x1)
    requires d == 2.0 * (x1 * (y2 - y3) + x2 * (y3 - y1) + x3 * (y1 - y2))
    requires d != 0.0 && ux * d == nx && uy * d == ny
    requires da == (x1 - ux) * (x1 - ux) + (y1 - uy) * (y1 - uy)
    requires db == (x2 - ux) * (x2 - ux) + (y2 - uy) * (y2 - uy)
    ensures da == db
  {
    ScalarCenterOnBisector(x1, y1, x2, y2, x3, y3, ux, uy, A, B, C, nx, ny, d);
    ScalarDistanceDifference(x1, y1, x2, y2, ux, uy, A, B, da, db);
  }

  /** The definitions of the point-level quantities, written out over
      coordinates. */
  lemma DefinitionsWrittenOut(a: Point, b: Point, c: Point)
    ensures SqNorm(a) == a.x * a.x + a.y * a.y && SqNorm(b) == b.x * b.x + b.y * b.y
    ensures NumX(a, b, c) == SqNorm(a) * (b.y - c.y) + SqNorm(b) * (c.y - a.y) + SqNorm(c) * (a.y - b.y)
    ensures NumY(a, b, c) == SqNorm(a) * (c.x - b.x) + SqNorm(b) * (a.x - c.x) + SqNorm(c) * (b.x - a.x)
    ensures Determinant(a, b, c) == 2.0 * (a.x * (b.y - c.y) + b.x * (c.y - a.y) + c.x * (a.y - b.y))
  {
  }

  lemma DistancesWrittenOut(a: Point, b: Point, u: Point)
    ensures DistSq(a, u) == (a.x - u.x) * (a.x - u.x) + (a.y - u.y) * (a.y - u.y)
    ensures DistSq(b, u) == (b.x - u.x) * (b.x - u.x) + (b.y - u.y) * (b.y - u.y)
  {
  }

  /** The coordinates of the closed-form centre. */
  lemma CenterCoordinates(a: Point, b: Point, c: Point, u: Point)
    requires Determinant(a, b, c) != 0.0 && u == Circumcenter(a, b, c)
    ensures u.x == NumX(a, b, c) / Determinant(a, b, c) && u.y == NumY(a, b, c) / Determinant(a, b, c)
  {
  }

  /** Multiplying the closed-form centre back by the determinant gives the
      numerators: the centre solves the linear system it comes from. */
  lemma CenterSolves(a: Point, b: Point, c: Point, u: Point)
    requires Determinant(a, b, c) != 0.0
    requires u.x == NumX(a, b, c) / Determinant(a, b, c) && u.y == NumY(a, b, c) / Determinant(a, b, c)
    ensures u.x * Determinant(a, b, c) == NumX(a, b, c) && u.y * Determinant(a, b, c) == NumY(a, b, c)
  {
    QuotientsTimes(NumX(a, b, c), NumY(a, b, c), Determinant(a, b, c), u.x, u.y);
  }

  /** A point u lies on the perpendicular bisector of a and b exactly when it
      is as far from a as from b. */
  lemma BisectorMeansEquidistant(a: Point, b: Point, u: Point)
    ensures DistSq(a, u) - DistSq(b, u) == SqNorm(a) - SqNorm(b) - 2.0 * (u.x * (a.x - b.x) + u.y * (a.y - b.y))
  {
    DefinitionsWrittenOut(a, b, a);
    DistancesWrittenOut(a, b, u);
    ScalarDistanceDifference(a.x, a.y, b.x, b.y, u.x, u.y, SqNorm(a), SqNorm(b), DistSq(a, u), DistSq(b, u));
  }

  /** A solution of the centre's linear system is as far from the first
      point as from the second. */
  lemma QuotientPointEquidistantAB(a: Point, b: Point, c: Point, u: Point)
    requires Determinant(a, b, c) != 0.0
    requires u.x * Determinant(a, b, c) == NumX(a, b, c) && u.y * Determinant(a, b, c) == NumY(a, b, c)
    ensures DistSq(a, u) == DistSq(b, u)
  {
    DistancesWrittenOut(a, b, u);
    DefinitionsWrittenOut(a, b, c);
    ScalarEquidistantAB(a.x, a.y, b.x, b.y, c.x, c.y, u.x, u.y, SqNorm(a), SqNorm(b), SqNorm(c),
                        NumX(a, b, c), NumY(a, b, c), Determinant(a, b, c), DistSq(a, u), DistSq(b, u));
  }

  /** The closed-form centre is as far from the first point as from the
      second. */
  lemma CenterEquidistantAB(a: Point, b: Point, c: Point, u: Point)
    requires Determinant(a, b, c) != 0.0 && u == Circumcenter(a, b, c)
    ensures DistSq(a, u) == DistSq(b, u)
  {
    CenterCoordinates(a, b, c, u);
    CenterSolves(a, b, c, u);
    QuotientPointEquidistantAB(a, b, c, u);
  }

  /** Relabelling the last two points negates the determinant and both
      numerators. */
  lemma SwapNegates(a: Point, b: Point, c: Point)
    ensures Determinant(a, c, b) == -Determinant(a, b, c)
    ensures NumX(a, c, b) == -NumX(a, b, c) && NumY(a, c, b) == -NumY(a, b, c)
  {
  }

  lemma NegateBoth(n: real, d: real)
    requires d != 0.0
    ensures (-n) / (-d) == n / d
  {
  }

  /** ... and so leaves the closed-form centre where it is. */
  lemma CircumcenterSwap(a: Point, b: Point, c: Point)
    requires Determinant(a, b, c) != 0.0
    ensures Determinant(a, c, b) != 0.0 && Circumcenter(a, c, b) == Circumcenter(a, b, c)
  {
    SwapNegates(a, b, c);
    NegateBoth(NumX(a, b, c), Determinant(a, b, c));
    NegateBoth(NumY(a, b, c), Determinant(a, b, c));
  }

  /** The closed-form centre is equidistant from the three points. */
  lemma CircumcenterEquidistant(a: Point, b: Point, c: Point)
    requires Determinant(a, b, c) != 0.0
    ensures DistSq(a, Circumcenter(a, b, c)) == DistSq(b, Circumcenter(a, b, c))
    ensures DistSq(a, Circumcenter(a, b, c)) == DistSq(c, Circumcenter(a, b, c))
  {
    CenterEquidistantAB(a, b, c, Circumcenter(a, b, c));
    CircumcenterSwap(a, b, c);
    CenterEquidistantAB(a, c, b, Circumcenter(a, c, b));
  }

  /** A 2 x 2 linear system with a non-zero determinant has only the trivial
      solution. */
  lemma TrivialKernel(wx: real, wy: real, p: real, s: real, r: real, t: real)
    requires wx * p + wy * s == 0.0 && wx * r + wy * t == 0.0
    requires p * t - s * r != 0.0
    ensures wx == 0.0 && wy == 0.0
  {
    assert wx * (p * t - s * r) == 0.0 by {
      assert wx * p * t == -(wy * s * t);
      assert wx * r * s == -(wy * t * s);
    }
    assert wy * (p * t - s * r) == 0.0 by {
      assert wy * s * r == -(wx * p * r);
      assert wy * t * p == -(wx * r * p);
    }
  }

  /** Two solutions of the same non-singular pair of bisector equations
      coincide. */
  lemma ScalarSameSolution(qx: real, qy: real, ux: real, uy: real, p: real, s: real, r: real, t: real)
    requires qx * p + qy * s == ux * p + uy * s
    requires qx * r + qy * t == ux * r + uy * t
    requires p * t - s * r != 0.0
    ensures qx == ux && qy == uy
  {
    TrivialKernel(qx - ux, qy - uy, p, s, r, t);
  }

  lemma DeterminantOfDifferences(a: Point, b: Point, c: Point)
    ensures Determinant(a, b, c) == 2.0 * ((a.x - b.x) * (a.y - c.y) - (a.y - b.y) * (a.x - c.x))
  {
  }

  /** A point equidistant from a, b and c lies on the bisectors of (a, b) and
      of (a, c). */
  lemma OnBothBisectors(a: Point, b: Point, c: Point, q: Point)
    requires DistSq(a, q) == DistSq(b, q) && DistSq(a, q) == DistSq(c, q)
    ensures 2.0 * (q.x * (a.x - b.x) + q.y * (a.y - b.y)) == SqNorm(a) - SqNorm(b)
    ensures 2.0 * (q.x * (a.x - c.x) + q.y * (a.y - c.y)) == SqNorm(a) - SqNorm(c)
  {
    BisectorMeansEquidistant(a, b, q);
    BisectorMeansEquidistant(a, c, q);
  }

  /** At most one point is equidistant from three non-collinear points. */
  lemma EquidistantPointUnique(a: Point, b: Point, c: Point, q: Point, u: Point)
    requires Determinant(a, b, c) != 0.0
    requires DistSq(a, q) == DistSq(b, q) && DistSq(a, q) == DistSq(c, q)
    requires DistSq(a, u) == DistSq(b, u) && DistSq(a, u) == DistSq(c, u)
    ensures q == u
  {
    OnBothBisectors(a, b, c, q);
    OnBothBisectors(a, b, c, u);
    DeterminantOfDifferences(a, b, c);
    SameBisectorSolution(a, b, c, q, u);
  }

  /** Two points on both bisectors of non-collinear a, b, c coincide (the
      determinant is written out as DeterminantOfDifferences gives it). */
  lemma SameBisectorSolution(a: Point, b: Point, c: Point, q: Point, u: Point)
    requires (a.x - b.x) * (a.y - c.y) - (a.y - b.y) * (a.x - c.x) != 0.0
    requires 2.0 * (q.x * (a.x - b.x) + q.y * (a.y - b.y)) == SqNorm(a) - SqNorm(b)
    requires 2.0 * (q.x * (a.x - c.x) + q.y * (a.y - c.y)) == SqNorm(a) - SqNorm(c)
    requires 2.0 * (u.x * (a.x - b.x) + u.y * (a.y - b.y)) == SqNorm(a) - SqNorm(b)
    requires 2.0 * (u.x * (a.x - c.x) + u.y * (a.y - c.y)) == SqNorm(a) - SqNorm(c)
    ensures q == u
  {
    ScalarSameSolution(q.x, q.y, u.x, u.y, a.x - b.x, a.y - b.y, a.x - c.x, a.y - c.y);
  }

  /** The centre is the only point equidistant from three non-collinear
      points, so the closed form does find the circle through them. */
  lemma CircumcenterUnique(a: Point, b: Point, c: Point, q: Point)
    requires Determinant(a, b, c) != 0.0
    requires DistSq(a, q) == DistSq(b, q) && DistSq(a, q) == DistSq(c, q)
    ensures q == Circumcenter(a, b, c)
  {
    CircumcenterEquidistant(a, b, c);
    EquidistantPointUnique(a, b, c, q, Circumcenter(a, b, c));
  }

  /** The result of an accepted fit; the stored radius is the square root of
      `radiusSq`. */
  datatype Fit = Fit(center: Point, radiusSq: real)

  /** `draw_circle_from_points`: None when the points are judged collinear,
      otherwise the centre and the squared radius to the first point. */
  function FitCircle(v: Frontend, a: Point, b: Point, c: Point): (f: Option<Fit>)
    ensures f.Some? <==> Abs(Determinant(a, b, c)) >= Tolerance(v)
  {
    var d := Determinant(a, b, c);
    if Abs(d) < Tolerance(v) then None
    else
      var u := Circumcenter(a, b, c);
      Some(Fit(u, DistSq(a, u)))
  }

  /** An accepted fit passes through all three points: the squared radius is
      the squared distance from the centre to each of them, and the points
      are not collinear. */
  lemma FitPassesThroughPoints(v: Frontend, a: Point, b: Point, c: Point)
    requires FitCircle(v, a, b, c).Some?
    ensures var f := FitCircle(v, a, b, c).value;
            && f.radiusSq == DistSq(a, f.center) == DistSq(b, f.center) == DistSq(c, f.center)
            && f.radiusSq >= 0.0
            && Cross(a, b, c) != 0.0
  {
    AcceptedFit(v, a, b, c);
    CircumcenterEquidistant(a, b, c);
    DistSqNonNegative(a, Circumcenter(a, b, c));
    DeterminantIsTwiceCross(a, b, c);
  }

  /** An accepted fit is the closed-form centre with the squared distance to
      the first point. */
  lemma AcceptedFit(v: Frontend, a: Point, b: Point, c: Point)
    requires FitCircle(v, a, b, c).Some?
    ensures Determinant(a, b, c) != 0.0
    ensures FitCircle(v, a, b, c).value == Fit(Circumcenter(a, b, c), DistSq(a, Circumcenter(a, b, c)))
  {
  }

  lemma DistSqNonNegative(p: Point, q: Point)
    ensures DistSq(p, q) >= 0.0
  {
    SquaresNonNegative(p.x - q.x, p.y - q.y);
  }

  lemma SquaresNonNegative(dx: real, dy: real)
    ensures dx * dx + dy * dy >= 0.0
  {
  }

  /** Collinear points are always rejected, in either front end. */
  lemma CollinearRejected(v: Frontend, a: Point, b: Point, c: Point)
    requires Cross(a, b, c) == 0.0
    ensures FitCircle(v, a, b, c).None?
  {
    DeterminantIsTwiceCross(a, b, c);
  }

  /** The Qt tolerance is the stricter one: every triple it accepts the Tk
      front end accepts too, with the same circle. */
  lemma QtAcceptanceImpliesTk(a: Point, b: Point, c: Point)
    requires FitCircle(Qt, a, b, c).Some?
    ensures FitCircle(Tk, a, b, c) == FitCircle(Qt, a, b, c)
  {
  }

  /** Relabelling the three points keeps the determinant up to sign. */
  lemma RelabelledDeterminants(a: Point, b: Point, c: Point)
    ensures Determinant(b, c, a) == Determinant(a, b, c) && Determinant(b, a, c) == -Determinant(a, b, c)
  {
  }

  /** The fit does not depend on the order the three points are clicked in. */
  lemma FitIgnoresClickOrder(v: Frontend, a: Point, b: Point, c: Point)
    requires FitCircle(v, a, b, c).Some?
    ensures FitCircle(v, b, c, a).Some? && FitCircle(v, b, a, c).Some?
    ensures FitCircle(v, b, c, a).value.center == FitCircle(v, a, b, c).value.center
    ensures FitCircle(v, b, a, c).value.center == FitCircle(v, a, b, c).value.center
  {
    AcceptedFit(v, a, b, c);
    RelabelledDeterminants(a, b, c);
    CircumcenterEquidistant(a, b, c);
    CircumcenterUnique(b, c, a, Circumcenter(a, b, c));
    CircumcenterUnique(b, a, c, Circumcenter(a, b, c));
  }
}
