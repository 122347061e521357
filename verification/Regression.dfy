/**
  The least-squares slope behind the disk-fill projection (backend/utils/trendAnalysis.js:9-23), with
  real arithmetic in place of floating point.
 */
module Regression {
  datatype Point = Point(x: real, y: real)

  // ------------------------------------------------------------------- sums

  function SumX(ps: seq<Point>): real {
    if ps == [] then 0.0 else SumX(ps[..|ps| - 1]) + ps[|ps| - 1].x
  }

  function SumY(ps: seq<Point>): real {
    if ps == [] then 0.0 else SumY(ps[..|ps| - 1]) + ps[|ps| - 1].y
  }

  function Product(u: real, v: real): real { u * v }

  /** Sum of (x - xm)(y - ym). */
  function Covariance(ps: seq<Point>, xm: real, ym: real): real {
    if ps == [] then 0.0 else Covariance(ps[..|ps| - 1], xm, ym) + Product(ps[|ps| - 1].x - xm, ps[|ps| - 1].y - ym)
  }

  /** Sum of (x - xm)^2. */
  function Spread(ps: seq<Point>, xm: real): real {
    if ps == [] then 0.0 else Spread(ps[..|ps| - 1], xm) + Product(ps[|ps| - 1].x - xm, ps[|ps| - 1].x - xm)
  }

  function MeanX(ps: seq<Point>): real requires ps != [] { SumX(ps) / (|ps| as real) }

  function MeanY(ps: seq<Point>): real requires ps != [] { SumY(ps) / (|ps| as real) }

  function Slope(ps: seq<Point>): real
    requires ps != []
  {
    if Spread(ps, MeanX(ps)) == 0.0 then 0.0 else Covariance(ps, MeanX(ps), MeanY(ps)) / Spread(ps, MeanX(ps))
  }

  method LinearRegressionSlope(points: seq<Point>) returns (slope: real)
    requires points != []
    ensures slope == Slope(points)
  {
    hide Product, MeanX, MeanY;
    var n := |points|;
    var xMean, yMean := MeanX(points), MeanY(points);
    var numerator, denominator := 0.0, 0.0;
    for i := 0 to n
      invariant numerator == Covariance(points[..i], xMean, yMean) && denominator == Spread(points[..i], xMean)
    {
      assert points[..i + 1][..i] == points[..i];
      var p := points[i];
      numerator := numerator + Product(p.x - xMean, p.y - yMean);
      denominator := denominator + Product(p.x - xMean, p.x - xMean);
    }
    assert points[..n] == points;
    return if denominator == 0.0 then 0.0 else numerator / denominator;
  }

  // ----------------------------------------------------------- least squares

  /** How far the line y = a + b x passes below the point. */
  function Miss(p: Point, a: real, b: real): real { p.y - a - b * p.x }

  /** The sum of squared residuals of the line y = a + b x. */
  function Residuals(ps: seq<Point>, a: real, b: real): real {
    if ps == [] then 0.0
    else Residuals(ps[..|ps| - 1], a, b) + Product(Miss(ps[|ps| - 1], a, b), Miss(ps[|ps| - 1], a, b))
  }

  /** Sum of (y - ym)^2. */
  function SpreadY(ps: seq<Point>, ym: real): real {
    if ps == [] then 0.0 else SpreadY(ps[..|ps| - 1], ym) + Product(ps[|ps| - 1].y - ym, ps[|ps| - 1].y - ym)
  }

  /** Sum of x - xm. */
  function OffsetX(ps: seq<Point>, xm: real): real {
    if ps == [] then 0.0 else OffsetX(ps[..|ps| - 1], xm) + (ps[|ps| - 1].x - xm)
  }

  function OffsetY(ps: seq<Point>, ym: real): real {
    if ps == [] then 0.0 else OffsetY(ps[..|ps| - 1], ym) + (ps[|ps| - 1].y - ym)
  }

  /** What the sums contribute to the residuals of a line of slope `b` that passes `c` below the centre. */
  function Expansion(vv: real, uv: real, uu: real, n: real, v: real, u: real, b: real, c: real): real {
    vv - 2.0 * b * uv + b * b * uu + n * (c * c) + 2.0 * c * v - 2.0 * b * c * u
  }

  lemma ExpansionAdds(vv: real, uv: real, uu: real, n: real, v: real, u: real,
                      dvv: real, duv: real, duu: real, dn: real, dv: real, du: real, b: real, c: real)
    ensures Expansion(vv + dvv, uv + duv, uu + duu, n + dn, v + dv, u + du, b, c) ==
            Expansion(vv, uv, uu, n, v, u, b, c) + Expansion(dvv, duv, duu, dn, dv, du, b, c)
  {
  }

  lemma NothingExpands(b: real, c: real)
    ensures Expansion(0.0, 0.0, 0.0, 0.0, 0.0, 0.0, b, c) == 0.0
  {
  }

  lemma MissExpands(p: Point, m: Point, a: real, b: real)
    ensures var u, v, c := p.x - m.x, p.y - m.y, Miss(m, a, b);
      Product(Miss(p, a, b), Miss(p, a, b)) == Expansion(Product(v, v), Product(u, v), Product(u, u), 1.0, v, u, b, c)
  {
    var u, v, c := p.x - m.x, p.y - m.y, Miss(m, a, b);
    assert b * p.x == b * u + b * m.x;
    assert Miss(p, a, b) == v - b * u + c;
  }

  /** The residuals of a line, by its slope and by how far it passes below any chosen centre. */
  lemma {:induction false} ResidualsExpand(ps: seq<Point>, m: Point, a: real, b: real)
    ensures Residuals(ps, a, b) ==
            Expansion(SpreadY(ps, m.y), Covariance(ps, m.x, m.y), Spread(ps, m.x), |ps| as real,
                      OffsetY(ps, m.y), OffsetX(ps, m.x), b, Miss(m, a, b))
  {
    hide Product, Expansion, Miss;
    if ps == [] {
      NothingExpands(b, Miss(m, a, b));
    } else {
      var front, p := ps[..|ps| - 1], ps[|ps| - 1];
      ResidualsExpand(front, m, a, b);
      var u, v := p.x - m.x, p.y - m.y;
      MissExpands(p, m, a, b);
      ExpansionAdds(SpreadY(front, m.y), Covariance(front, m.x, m.y), Spread(front, m.x), |front| as real,
                    OffsetY(front, m.y), OffsetX(front, m.x),
                    Product(v, v), Product(u, v), Product(u, u), 1.0, v, u, b, Miss(m, a, b));
    }
  }

  lemma OneMore(n: nat, m: real)
    ensures ((n + 1) as real) * m == (n as real) * m + m
  {
  }

  lemma {:induction false} OffsetsAre(ps: seq<Point>, m: Point)
    ensures OffsetX(ps, m.x) == SumX(ps) - (|ps| as real) * m.x
    ensures OffsetY(ps, m.y) == SumY(ps) - (|ps| as real) * m.y
  {
    if ps != [] {
      OffsetsAre(ps[..|ps| - 1], m);
      OneMore(|ps| - 1, m.x);
      OneMore(|ps| - 1, m.y);
    }
  }

  /** The offsets from the mean cancel out. */
  lemma MeanCentres(ps: seq<Point>)
    requires ps != []
    ensures OffsetX(ps, MeanX(ps)) == 0.0 && OffsetY(ps, MeanY(ps)) == 0.0
  {
    OffsetsAre(ps, Point(MeanX(ps), MeanY(ps)));
  }

  lemma PositiveProduct(u: real, v: real)
    requires (u > 0.0 && v > 0.0) || (u < 0.0 && v < 0.0)
    ensures Product(u, v) > 0.0
  {
  }

  lemma SquareIsNonNegative(u: real)
    ensures Product(u, u) >= 0.0
    ensures Product(u, u) == 0.0 ==> u == 0.0
  {
    if u != 0.0 {
      PositiveProduct(u, u);
    }
  }

  /** With no spread all points share one time, and the covariance is zero too. */
  lemma {:induction false} NoSpreadNoCovariance(ps: seq<Point>, xm: real, ym: real)
    ensures Spread(ps, xm) >= 0.0
    ensures Spread(ps, xm) == 0.0 ==> Covariance(ps, xm, ym) == 0.0
  {
    if ps != [] {
      NoSpreadNoCovariance(ps[..|ps| - 1], xm, ym);
      SquareIsNonNegative(ps[|ps| - 1].x - xm);
    }
  }

  lemma SlopeSolves(ps: seq<Point>)
    requires ps != []
    ensures Slope(ps) * Spread(ps, MeanX(ps)) == Covariance(ps, MeanX(ps), MeanY(ps))
  {
    NoSpreadNoCovariance(ps, MeanX(ps), MeanY(ps));
  }

  function Intercept(ps: seq<Point>): real
    requires ps != []
  {
    MeanY(ps) - Slope(ps) * MeanX(ps)
  }

  /** Completing the square: what a line of slope `b` that misses the centre by `c` loses to the best one. */
  lemma Loss(vv: real, uv: real, uu: real, n: real, s: real, b: real, c: real)
    requires s * uu == uv
    ensures Expansion(vv, uv, uu, n, 0.0, 0.0, b, c) - Expansion(vv, uv, uu, n, 0.0, 0.0, s, 0.0) ==
            Product(b - s, b - s) * uu + n * Product(c, c)
  {
    assert b * uv == b * s * uu;
    assert s * uv == s * s * uu;
  }

  lemma LossOf(ps: seq<Point>, a: real, b: real)
    requires ps != []
    ensures var m := Point(MeanX(ps), MeanY(ps));
      Residuals(ps, a, b) - Residuals(ps, Intercept(ps), Slope(ps)) ==
      Product(b - Slope(ps), b - Slope(ps)) * Spread(ps, m.x) + (|ps| as real) * Product(Miss(m, a, b), Miss(m, a, b))
  {
    hide Product, Expansion, MeanX, MeanY, Slope;
    var m := Point(MeanX(ps), MeanY(ps));
    MeanCentres(ps);
    SlopeSolves(ps);
    ResidualsExpand(ps, m, a, b);
    ResidualsExpand(ps, m, Intercept(ps), Slope(ps));
    assert Miss(m, Intercept(ps), Slope(ps)) == 0.0;
    Loss(SpreadY(ps, m.y), Covariance(ps, m.x, m.y), Spread(ps, m.x), |ps| as real, Slope(ps), b, Miss(m, a, b));
  }

  /** The slope, with the line through the mean point, minimises the sum of squared residuals over all lines. */
  lemma LeastSquares(ps: seq<Point>, a: real, b: real)
    requires ps != []
    ensures Residuals(ps, Intercept(ps), Slope(ps)) <= Residuals(ps, a, b)
  {
    var m := Point(MeanX(ps), MeanY(ps));
    LossOf(ps, a, b);
    NoSpreadNoCovariance(ps, m.x, m.y);
    SquareIsNonNegative(b - Slope(ps));
    SquareIsNonNegative(Miss(m, a, b));
    NonNegativeProduct(Product(b - Slope(ps), b - Slope(ps)), Spread(ps, m.x));
    NonNegativeProduct(|ps| as real, Product(Miss(m, a, b), Miss(m, a, b)));
  }

  lemma NonNegativeProduct(u: real, v: real)
    requires u >= 0.0 && v >= 0.0
    ensures u * v >= 0.0
    ensures u * v == 0.0 ==> u == 0.0 || v == 0.0
  {
  }

  lemma ZeroTerms(d: real, spread: real, n: real, c: real)
    requires spread > 0.0 && n > 0.0
    requires Product(d, d) * spread + n * Product(c, c) <= 0.0
    ensures d == 0.0 && c == 0.0
  {
    SquareIsNonNegative(d);
    SquareIsNonNegative(c);
    NonNegativeProduct(Product(d, d), spread);
    NonNegativeProduct(n, Product(c, c));
  }

  lemma ThroughTheCentre(ps: seq<Point>, a: real)
    requires ps != [] && Miss(Point(MeanX(ps), MeanY(ps)), a, Slope(ps)) == 0.0
    ensures a == Intercept(ps)
  {
  }

  /** When the points do not all share one time, no other line is as good. */
  lemma LeastSquaresIsUnique(ps: seq<Point>, a: real, b: real)
    requires ps != [] && Spread(ps, MeanX(ps)) != 0.0
    requires Residuals(ps, a, b) <= Residuals(ps, Intercept(ps), Slope(ps))
    ensures a == Intercept(ps) && b == Slope(ps)
  {
    hide Product, MeanX, MeanY, Slope, Intercept, Miss, Spread, Residuals;
    var m := Point(MeanX(ps), MeanY(ps));
    LossOf(ps, a, b);
    NoSpreadNoCovariance(ps, m.x, m.y);
    ZeroTerms(b - Slope(ps), Spread(ps, m.x), |ps| as real, Miss(m, a, b));
    ThroughTheCentre(ps, a);
  }

  lemma {:induction false} ResidualsSigned(ps: seq<Point>, a: real, b: real)
    ensures Residuals(ps, a, b) >= 0.0
    ensures (forall p :: p in ps ==> Miss(p, a, b) == 0.0) ==> Residuals(ps, a, b) == 0.0
  {
    if ps != [] {
      ResidualsSigned(ps[..|ps| - 1], a, b);
      SquareIsNonNegative(Miss(ps[|ps| - 1], a, b));
    }
  }

  ghost predicate OnLine(ps: seq<Point>, a: real, b: real) {
    forall p :: p in ps ==> p.y == a + b * p.x
  }

  lemma OnLineMissesNothing(ps: seq<Point>, a: real, b: real)
    requires OnLine(ps, a, b)
    ensures forall p :: p in ps ==> Miss(p, a, b) == 0.0
  {
  }

  /** On points that lie on one line, at more than one time, the slope is exactly that line's. */
  lemma ExactOnALine(ps: seq<Point>, a: real, b: real)
    requires ps != [] && Spread(ps, MeanX(ps)) != 0.0
    requires OnLine(ps, a, b)
    ensures Slope(ps) == b && Intercept(ps) == a
  {
    hide OnLine, Miss, Slope, Intercept, MeanX, MeanY, Spread, Residuals;
    OnLineMissesNothing(ps, a, b);
    ResidualsSigned(ps, a, b);
    ResidualsSigned(ps, Intercept(ps), Slope(ps));
    LeastSquaresIsUnique(ps, a, b);
  }

  // ------------------------------------------------------------ rising data

  ghost predicate InTimeOrder(ps: seq<Point>) {
    forall i, j :: 0 <= i < j < |ps| ==> ps[i].x <= ps[j].x
  }

  ghost predicate Rising(ps: seq<Point>) {
    forall i, j :: 0 <= i < j < |ps| ==> ps[i].y <= ps[j].y
  }

  /** The covariance can be taken around any level: the offsets in x cancel. */
  lemma {:induction false} AnyLevel(ps: seq<Point>, xm: real, ym: real, level: real)
    ensures Covariance(ps, xm, ym) == Covariance(ps, xm, level) + Product(level - ym, OffsetX(ps, xm))
  {
    if ps != [] {
      AnyLevel(ps[..|ps| - 1], xm, ym, level);
      var u, v := ps[|ps| - 1].x - xm, ps[|ps| - 1].y;
      LevelShift(u, v, ym, level, OffsetX(ps[..|ps| - 1], xm));
    }
  }

  lemma LevelShift(u: real, v: real, ym: real, level: real, offset: real)
    ensures Product(u, v - ym) == Product(u, v - level) + Product(level - ym, u)
    ensures Product(level - ym, offset + u) == Product(level - ym, offset) + Product(level - ym, u)
  {
  }

  /** A level that the values reach when the times pass `xm`. */
  ghost predicate Crosses(ps: seq<Point>, xm: real, level: real) {
    forall p :: p in ps ==> (p.x >= xm && p.y >= level) || (p.x <= xm && p.y <= level)
  }

  lemma {:induction false} CrossingLevel(ps: seq<Point>, xm: real) returns (level: real)
    requires InTimeOrder(ps) && Rising(ps)
    ensures Crosses(ps, xm, level)
    ensures ps != [] && ps[|ps| - 1].x <= xm ==> level >= ps[|ps| - 1].y
  {
    if ps == [] {
      level := 0.0;
    } else {
      var front, last := ps[..|ps| - 1], ps[|ps| - 1];
      assert ps == front + [last];
      if last.x <= xm {
        level := last.y;
        assert forall i :: 0 <= i < |ps| - 1 ==> ps[i].x <= last.x && ps[i].y <= last.y;
      } else if front == [] {
        level := last.y;
      } else {
        var was := CrossingLevel(front, xm);
        level := if was <= last.y then was else last.y;
        assert forall i :: 0 <= i < |ps| - 1 ==> ps[i].x <= last.x && ps[i].y <= last.y;
      }
    }
  }

  lemma {:induction false} CrossingIsNonNegative(ps: seq<Point>, xm: real, level: real)
    requires Crosses(ps, xm, level)
    ensures Covariance(ps, xm, level) >= 0.0
  {
    if ps != [] {
      var front, last := ps[..|ps| - 1], ps[|ps| - 1];
      assert forall p :: p in front ==> p in ps;
      CrossingIsNonNegative(front, xm, level);
      SameSign(last.x - xm, last.y - level);
    }
  }

  lemma SameSign(u: real, v: real)
    requires (u >= 0.0 && v >= 0.0) || (u <= 0.0 && v <= 0.0)
    ensures Product(u, v) >= 0.0
  {
    if u <= 0.0 && v <= 0.0 {
      assert (-u) * (-v) >= 0.0;
    }
  }

  lemma Quotient(u: real, v: real)
    requires u >= 0.0 && v > 0.0
    ensures u / v >= 0.0
  {
  }

  /** On data that never falls as time goes on, the slope is never negative. */
  lemma RisingSlope(ps: seq<Point>)
    requires ps != [] && InTimeOrder(ps) && Rising(ps)
    ensures Slope(ps) >= 0.0
  {
    hide Product, InTimeOrder, Rising, Crosses, MeanX, MeanY;
    var xm, ym := MeanX(ps), MeanY(ps);
    var level := CrossingLevel(ps, xm);
    CrossingIsNonNegative(ps, xm, level);
    AnyLevel(ps, xm, ym, level);
    MeanCentres(ps);
    ZeroProduct(level - ym);
    NoSpreadNoCovariance(ps, xm, ym);
    if Spread(ps, xm) > 0.0 {
      Quotient(Covariance(ps, xm, ym), Spread(ps, xm));
    }
  }

  lemma ZeroProduct(u: real)
    ensures Product(u, 0.0) == 0.0
  {
  }
}
