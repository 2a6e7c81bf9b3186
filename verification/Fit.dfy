/** The least-squares line of bench/publication/run.py, over the reals. */
module Fit {
  import opened Reals

  datatype Point = Point(x: real, y: real)

  datatype Line = Line(slope: real, documentsPerMib: real, intercept: real, rSquared: real)

  /** No data has no mean; equal abscissas, or a slope of zero, divide by zero. */
  datatype Failure = NoData | DivisionByZero
  datatype Result = Ok(line: Line) | Err(failure: Failure)

  // ----- Sums over the points -----

  type Term = Point -> real

  function Total(p: seq<Point>, f: Term): real { if p == [] then 0.0 else f(p[0]) + Total(p[1..], f) }

  function Square(d: real): real { d * d }

  function X(): Term { (z: Point) => z.x }
  function Y(): Term { (z: Point) => z.y }
  function One(): Term { (z: Point) => 1.0 }
  function OffX(u: real): Term { (z: Point) => z.x - u }
  function OffY(v: real): Term { (z: Point) => z.y - v }
  function SquareX(u: real): Term { (z: Point) => Square(z.x - u) }
  function SquareY(v: real): Term { (z: Point) => Square(z.y - v) }
  function Product(u: real, v: real): Term { (z: Point) => (z.x - u) * (z.y - v) }
  function SquaredResidual(slope: real, intercept: real): Term { (z: Point) => Square(z.y - (intercept + slope * z.x)) }

  function Count(p: seq<Point>): (n: real)
    ensures p != [] ==> n > 0.0
  {
    |p| as real
  }

  function MeanX(p: seq<Point>): real
    requires p != []
  {
    Total(p, X()) / Count(p)
  }

  function MeanY(p: seq<Point>): real
    requires p != []
  {
    Total(p, Y()) / Count(p)
  }

  function Sxx(p: seq<Point>): real
    requires p != []
  {
    Total(p, SquareX(MeanX(p)))
  }

  function Sxy(p: seq<Point>): real
    requires p != []
  {
    Total(p, Product(MeanX(p), MeanY(p)))
  }

  function Syy(p: seq<Point>): real
    requires p != []
  {
    Total(p, SquareY(MeanY(p)))
  }

  function Residual(p: seq<Point>, slope: real, intercept: real): real { Total(p, SquaredResidual(slope, intercept)) }

  function Slope(p: seq<Point>): real
    requires p != [] && Sxx(p) != 0.0
  {
    Sxy(p) / Sxx(p)
  }

  function Intercept(p: seq<Point>): real
    requires p != [] && Sxx(p) != 0.0
  {
    MeanY(p) - Slope(p) * MeanX(p)
  }

  function FitLine(p: seq<Point>): Result {
    if p == [] then Err(NoData)
    else if Sxx(p) == 0.0 then Err(DivisionByZero)
    else
      var slope, intercept := Slope(p), Intercept(p);
      var residual, total := Residual(p, slope, intercept), Syy(p);
      if slope == 0.0 then Err(DivisionByZero)
      else Ok(Line(slope, 1048576.0 / slope, intercept, if total != 0.0 then 1.0 - residual / total else 1.0))
  }

  // ----- Products -----

  lemma NegatedSquare(d: real)
    ensures Square(-d) == Square(d)
  {}

  lemma SquareAbove(d: real)
    requires d > 0.0
    ensures Square(d) > 0.0
  {
    assert Square(d) / d == d;
  }

  lemma SquareOfZero(d: real)
    requires d == 0.0
    ensures Square(d) == 0.0
  {}

  lemma SquareIsPositive(d: real)
    ensures Square(d) >= 0.0 && (Square(d) == 0.0 <==> d == 0.0)
  {
    if d > 0.0 {
      SquareAbove(d);
    } else if d < 0.0 {
      SquareAbove(-d);
      NegatedSquare(d);
    } else {
      SquareOfZero(d);
    }
  }

  // ----- Sums of combinations -----

  ghost predicate Combination(f: Term, g: Term, c: real, h: Term) { forall z :: f(z) == g(z) + c * h(z) }

  /** The sum of a combination is the combination of the sums. */
  lemma {:induction false} Combines(p: seq<Point>, f: Term, g: Term, c: real, h: Term)
    requires Combination(f, g, c, h)
    ensures Total(p, f) == Total(p, g) + c * Total(p, h)
  {
    if p == [] {
      ZeroProduct(Total(p, h), c);
    } else {
      Combines(p[1..], f, g, c, h);
      Distribute(c, h(p[0]), Total(p[1..], h));
    }
  }

  lemma {:induction false} CountsOnes(p: seq<Point>)
    ensures Total(p, One()) == Count(p)
  {
    if p != [] { CountsOnes(p[1..]); }
  }

  lemma OffsetsFromMean(p: seq<Point>)
    requires p != []
    ensures Total(p, OffX(MeanX(p))) == 0.0 && Total(p, OffY(MeanY(p))) == 0.0
  {
    CountsOnes(p);
    Quotient(Total(p, X()), Count(p));
    Quotient(Total(p, Y()), Count(p));
    Combines(p, OffX(MeanX(p)), X(), -MeanX(p), One());
    Combines(p, OffY(MeanY(p)), Y(), -MeanY(p), One());
    NegatedProduct(MeanX(p), Count(p));
    NegatedProduct(MeanY(p), Count(p));
  }

  // ----- Sums of squares -----

  lemma {:induction false} SquaresVanish(p: seq<Point>, f: Term, d: Term)
    requires forall z :: f(z) == Square(d(z))
    ensures Total(p, f) >= 0.0 && (Total(p, f) == 0.0 <==> forall i :: 0 <= i < |p| ==> d(p[i]) == 0.0)
  {
    if p != [] {
      SquareIsPositive(d(p[0]));
      SquaresVanish(p[1..], f, d);
    }
  }

  lemma {:induction false} ConstantSum(p: seq<Point>, x: real)
    requires forall i :: 0 <= i < |p| ==> p[i].x == x
    ensures Total(p, X()) == x * Count(p)
  {
    if p == [] {
      ZeroProduct(Count(p), x);
    } else {
      ConstantSum(p[1..], x);
      Distribute(x, Count(p[1..]), 1.0);
    }
  }

  /** The denominator is zero exactly when there are no two distinct abscissas. */
  lemma {:induction false} DenominatorZero(p: seq<Point>)
    requires p != []
    ensures Sxx(p) >= 0.0 && (Sxx(p) == 0.0 <==> forall i, j :: 0 <= i < j < |p| ==> p[i].x == p[j].x)
  {
    SquaresVanish(p, SquareX(MeanX(p)), OffX(MeanX(p)));
    if forall i, j :: 0 <= i < j < |p| ==> p[i].x == p[j].x {
      ConstantSum(p, p[0].x);
      SameQuotient(p[0].x, Total(p, X()), Count(p));
    }
  }

  lemma SameQuotient(s: real, t: real, n: real)
    requires n > 0.0 && t == s * n
    ensures t / n == s
  {}

  // ----- The line -----

  function Misses(slope: real, intercept: real): Term { (z: Point) => z.y - (intercept + slope * z.x) }

  function Weighted(u: real, slope: real, intercept: real): Term {
    (z: Point) => (z.x - u) * (z.y - (intercept + slope * z.x))
  }

  lemma MissAboutMeans(x: real, y: real, u: real, v: real, s: real, c: real)
    requires c == v - s * u
    ensures y - (c + s * x) == (y - v) + -s * (x - u)
    ensures (x - u) * (y - (c + s * x)) == (x - u) * (y - v) + -s * Square(x - u)
  {
    var dx, dy := x - u, y - v;
    Distribute(s, dx, u);
    assert y - (c + s * x) == dy + -s * dx;
    Distribute(dx, dy, -s * dx);
  }

  /** The normal equations: a line's misses add up to nothing, and to nothing when weighted by the abscissas. */
  ghost predicate Normal(p: seq<Point>, u: real, s: real, c: real) {
    Total(p, Misses(s, c)) == 0.0 && Total(p, Weighted(u, s, c)) == 0.0
  }

  lemma MissesCombine(u: real, v: real, s: real, c: real)
    requires c == v - s * u
    ensures Combination(Misses(s, c), OffY(v), -s, OffX(u))
  {
    forall z: Point ensures Misses(s, c)(z) == OffY(v)(z) + -s * OffX(u)(z) { MissAboutMeans(z.x, z.y, u, v, s, c); }
  }

  lemma WeightedCombine(u: real, v: real, s: real, c: real)
    requires c == v - s * u
    ensures Combination(Weighted(u, s, c), Product(u, v), -s, SquareX(u))
  {
    forall z: Point ensures Weighted(u, s, c)(z) == Product(u, v)(z) + -s * SquareX(u)(z) {
      WeightedAt(u, v, s, c, z);
    }
  }

  lemma WeightedAt(u: real, v: real, s: real, c: real, z: Point)
    requires c == v - s * u
    ensures Weighted(u, s, c)(z) == Product(u, v)(z) + -s * SquareX(u)(z)
  {
    MissAboutMeans(z.x, z.y, u, v, s, c);
  }

  lemma Cancels(y: real, s: real, x: real)
    requires y == s * x
    ensures y + -s * x == 0.0
  {}

  lemma Vanishes(y: real, s: real, x: real)
    requires y == 0.0 && x == 0.0
    ensures y + -s * x == 0.0
  {
    ZeroProduct(x, -s);
  }

  /** A line through the centre of the points is normal when its slope is the share of the products in the squares. */
  lemma {:induction false} CentredIsNormal(p: seq<Point>, u: real, v: real, s: real, c: real, sxx: real)
    requires c == v - s * u && Total(p, OffX(u)) == 0.0 && Total(p, OffY(v)) == 0.0
    requires Total(p, SquareX(u)) == sxx && Total(p, Product(u, v)) == s * sxx
    ensures Normal(p, u, s, c)
  {
    MissesVanish(p, u, v, s, c);
    WeightedVanish(p, u, v, s, c, sxx);
  }

  lemma {:induction false} MissesVanish(p: seq<Point>, u: real, v: real, s: real, c: real)
    requires c == v - s * u && Total(p, OffX(u)) == 0.0 && Total(p, OffY(v)) == 0.0
    ensures Total(p, Misses(s, c)) == 0.0
  {
    MissesTotal(p, u, v, s, c);
    Vanishes(Total(p, OffY(v)), s, Total(p, OffX(u)));
  }

  lemma {:induction false} WeightedVanish(p: seq<Point>, u: real, v: real, s: real, c: real, sxx: real)
    requires c == v - s * u && Total(p, SquareX(u)) == sxx && Total(p, Product(u, v)) == s * sxx
    ensures Total(p, Weighted(u, s, c)) == 0.0
  {
    WeightedTotal(p, u, v, s, c);
    Cancels(Total(p, Product(u, v)), s, sxx);
  }

  lemma {:induction false} MissesTotal(p: seq<Point>, u: real, v: real, s: real, c: real)
    requires c == v - s * u
    ensures Total(p, Misses(s, c)) == Total(p, OffY(v)) + -s * Total(p, OffX(u))
  {
    MissesCombine(u, v, s, c);
    Combines(p, Misses(s, c), OffY(v), -s, OffX(u));
  }

  lemma {:induction false} WeightedTotal(p: seq<Point>, u: real, v: real, s: real, c: real)
    requires c == v - s * u
    ensures Total(p, Weighted(u, s, c)) == Total(p, Product(u, v)) + -s * Total(p, SquareX(u))
  {
    WeightedCombine(u, v, s, c);
    Combines(p, Weighted(u, s, c), Product(u, v), -s, SquareX(u));
  }

  lemma FitIsNormal(p: seq<Point>)
    requires p != [] && Sxx(p) != 0.0
    ensures Normal(p, MeanX(p), Slope(p), Intercept(p))
  {
    OffsetsFromMean(p);
    Quotient(Sxy(p), Sxx(p));
    CentredIsNormal(p, MeanX(p), MeanY(p), Slope(p), Intercept(p), Sxx(p));
  }

  /** How far the line of slope s + k and intercept c + h is from that of slope s and intercept c. */
  function Apart(h: real, k: real): Term { (z: Point) => h + k * z.x }
  function ApartSquared(h: real, k: real): Term { (z: Point) => Square(h + k * z.x) }
  function Cross(s: real, c: real, h: real, k: real): Term { (z: Point) => (h + k * z.x) * (z.y - (c + s * z.x)) }

  lemma PointApart(x: real, y: real, s: real, c: real, h: real, k: real)
    ensures var r, d := y - (c + s * x), h + k * x;
      Square(y - ((c + h) + (s + k) * x)) == (Square(r) + -2.0 * (d * r)) + 1.0 * Square(d)
  {
    var r, d := y - (c + s * x), h + k * x;
    Distribute(x, s, k);
    assert y - ((c + h) + (s + k) * x) == r - d;
    SquareOfDifference(r, d);
  }

  lemma SquareOfDifference(r: real, d: real)
    ensures Square(r - d) == Square(r) + -2.0 * (d * r) + Square(d)
  {}

  lemma CrossSplits(x: real, r: real, u: real, h: real, k: real)
    ensures (h + k * x) * r == (h + k * u) * r + k * ((x - u) * r)
  {
    var f, g := k * u, k * (x - u);
    Distribute(k, x - u, u);
    Distribute(r, h + f, g);
    assert g * r == k * ((x - u) * r);
  }

  function Scaled(g: real, f: Term): Term { (z: Point) => g * f(z) }
  function Zero(): Term { (z: Point) => 0.0 }

  lemma CrossCombines(u: real, s: real, c: real, h: real, k: real)
    ensures Combination(Cross(s, c, h, k), Scaled(h + k * u, Misses(s, c)), k, Weighted(u, s, c))
  {
    forall z: Point ensures Cross(s, c, h, k)(z) == Scaled(h + k * u, Misses(s, c))(z) + k * Weighted(u, s, c)(z) {
      CrossAt(u, s, c, h, k, z);
    }
  }

  lemma CrossAt(u: real, s: real, c: real, h: real, k: real, z: Point)
    ensures Cross(s, c, h, k)(z) == Scaled(h + k * u, Misses(s, c))(z) + k * Weighted(u, s, c)(z)
  {
    CrossSplits(z.x, z.y - (c + s * z.x), u, h, k);
  }

  lemma ScaledTotal(p: seq<Point>, g: real, f: Term)
    ensures Total(p, Scaled(g, f)) == g * Total(p, f)
  {
    Zeros(p);
    assert Combination(Scaled(g, f), Zero(), g, f);
    Combines(p, Scaled(g, f), Zero(), g, f);
  }

  lemma CrossVanishes(p: seq<Point>, u: real, s: real, c: real, h: real, k: real)
    requires Normal(p, u, s, c)
    ensures Total(p, Cross(s, c, h, k)) == 0.0
  {
    var g := h + k * u;
    ScaledTotal(p, g, Misses(s, c));
    ZeroProduct(Total(p, Misses(s, c)), g);
    CrossCombines(u, s, c, h, k);
    Combines(p, Cross(s, c, h, k), Scaled(g, Misses(s, c)), k, Weighted(u, s, c));
    ZeroProduct(Total(p, Weighted(u, s, c)), k);
  }

  lemma {:induction false} Zeros(p: seq<Point>)
    ensures Total(p, Zero()) == 0.0
  {
    if p != [] { Zeros(p[1..]); }
  }

  /** The squared residual of one line with the cross term that leads to another's. */
  function Halfway(s: real, c: real, h: real, k: real): Term {
    (z: Point) => Square(z.y - (c + s * z.x)) + -2.0 * ((h + k * z.x) * (z.y - (c + s * z.x)))
  }

  lemma ResidualCombines(s: real, c: real, h: real, k: real)
    ensures Combination(SquaredResidual(s + k, c + h), Halfway(s, c, h, k), 1.0, ApartSquared(h, k))
  {
    forall z: Point ensures SquaredResidual(s + k, c + h)(z) == Halfway(s, c, h, k)(z) + 1.0 * ApartSquared(h, k)(z) {
      ResidualAt(s, c, h, k, z);
    }
  }

  lemma ResidualAt(s: real, c: real, h: real, k: real, z: Point)
    ensures SquaredResidual(s + k, c + h)(z) == Halfway(s, c, h, k)(z) + 1.0 * ApartSquared(h, k)(z)
  {
    PointApart(z.x, z.y, s, c, h, k);
  }

  /** Any line's residuals exceed a normal line's by the squares of how far apart the two are at the points. */
  lemma ResidualExcess(p: seq<Point>, u: real, s: real, c: real, h: real, k: real)
    requires Normal(p, u, s, c)
    ensures Residual(p, s + k, c + h) == Residual(p, s, c) + Total(p, ApartSquared(h, k))
  {
    CrossVanishes(p, u, s, c, h, k);
    assert Combination(Halfway(s, c, h, k), SquaredResidual(s, c), -2.0, Cross(s, c, h, k));
    Combines(p, Halfway(s, c, h, k), SquaredResidual(s, c), -2.0, Cross(s, c, h, k));
    ResidualCombines(s, c, h, k);
    Combines(p, SquaredResidual(s + k, c + h), Halfway(s, c, h, k), 1.0, ApartSquared(h, k));
  }

  /** Two lines that meet over two abscissas are one. */
  lemma SameLine(h: real, k: real, x: real, y: real)
    requires h + k * x == 0.0 && h + k * y == 0.0 && x != y
    ensures h == 0.0 && k == 0.0
  {
    Distribute(k, x, -y);
    NoZeroProduct(k, x - y);
    ZeroProduct(k, x);
  }

  lemma NoZeroProduct(s: real, t: real)
    requires s * t == 0.0 && t != 0.0
    ensures s == 0.0
  {}

  lemma ApartVanishes(p: seq<Point>, h: real, k: real)
    requires p != [] && Sxx(p) != 0.0
    ensures var apart := Total(p, ApartSquared(h, k));
      apart >= 0.0 && (apart == 0.0 <==> h == 0.0 && k == 0.0)
  {
    SquaresVanish(p, ApartSquared(h, k), Apart(h, k));
    DenominatorZero(p);
    var i, j :| 0 <= i < j < |p| && p[i].x != p[j].x;
    if forall l :: 0 <= l < |p| ==> Apart(h, k)(p[l]) == 0.0 {
      MeetTwice(p[i], p[j], h, k);
    }
    if h == 0.0 && k == 0.0 {
      forall l | 0 <= l < |p| ensures Apart(h, k)(p[l]) == 0.0 { MeetEverywhere(p[l], h, k); }
    }
  }

  lemma MeetTwice(y: Point, z: Point, h: real, k: real)
    requires Apart(h, k)(y) == 0.0 && Apart(h, k)(z) == 0.0 && y.x != z.x
    ensures h == 0.0 && k == 0.0
  {
    SameLine(h, k, y.x, z.x);
  }

  lemma MeetEverywhere(z: Point, h: real, k: real)
    requires h == 0.0 && k == 0.0
    ensures Apart(h, k)(z) == 0.0
  {
    ZeroProduct(k, z.x);
  }

  /** No other line does as well. */
  lemma LeastSquares(p: seq<Point>, a: real, b: real)
    requires p != [] && Sxx(p) != 0.0
    ensures Residual(p, Slope(p), Intercept(p)) <= Residual(p, a, b)
    ensures Residual(p, Slope(p), Intercept(p)) == Residual(p, a, b) <==> a == Slope(p) && b == Intercept(p)
  {
    FitIsNormal(p);
    ResidualExcess(p, MeanX(p), Slope(p), Intercept(p), b - Intercept(p), a - Slope(p));
    ApartVanishes(p, b - Intercept(p), a - Slope(p));
  }

  /** Every point is on the line. */
  ghost predicate OnLine(p: seq<Point>, slope: real, intercept: real) {
    forall i :: 0 <= i < |p| ==> p[i].y == intercept + slope * p[i].x
  }

  lemma ResidualVanishes(p: seq<Point>, a: real, b: real)
    ensures Residual(p, a, b) >= 0.0
    ensures Residual(p, a, b) == 0.0 <==> OnLine(p, a, b)
  {
    SquaresVanish(p, SquaredResidual(a, b), Misses(a, b));
    assert forall i :: 0 <= i < |p| ==> (Misses(a, b)(p[i]) == 0.0 <==> p[i].y == b + a * p[i].x);
  }

  lemma LevelCombines(v: real)
    ensures Combination(SquaredResidual(0.0, v), SquareY(v), 0.0, One())
  {
    forall z: Point ensures SquaredResidual(0.0, v)(z) == SquareY(v)(z) + 0.0 * One()(z) { ZeroProduct(0.0, z.x); }
  }

  /** The total is the residual of the level line through the mean, so a sloping fit explains some of it. */
  lemma Explained(p: seq<Point>)
    requires p != [] && Sxx(p) != 0.0
    ensures 0.0 <= Residual(p, Slope(p), Intercept(p)) <= Syy(p)
    ensures Residual(p, Slope(p), Intercept(p)) == Syy(p) <==> Slope(p) == 0.0
  {
    LeastSquares(p, 0.0, MeanY(p));
    ResidualVanishes(p, Slope(p), Intercept(p));
    LevelCombines(MeanY(p));
    Combines(p, SquaredResidual(0.0, MeanY(p)), SquareY(MeanY(p)), 0.0, One());
    if Slope(p) == 0.0 { ZeroProduct(Slope(p), MeanX(p)); }
  }

  lemma Share(residual: real, total: real)
    requires 0.0 <= residual <= total && total > 0.0
    ensures 0.0 <= residual / total <= 1.0 && (residual / total == 0.0 <==> residual == 0.0)
  {
    var q := residual / total;
    Quotient(residual, total);
    if q < 0.0 {
      PositiveProduct(-q, total);
      NegatedProduct(q, total);
    } else if q == 0.0 {
      ZeroProduct(q, total);
    } else if q > 1.0 {
      PositiveProduct(q - 1.0, total);
      Distribute(total, q, -1.0);
    }
  }

  /** A fit that answers gives the least-squares line, */
  lemma FitIsLeastSquares(p: seq<Point>, a: real, b: real)
    requires FitLine(p).Ok?
    ensures var l := FitLine(p).line;
      && Residual(p, l.slope, l.intercept) <= Residual(p, a, b)
      && (Residual(p, l.slope, l.intercept) == Residual(p, a, b) <==> a == l.slope && b == l.intercept)
  {
    LeastSquares(p, a, b);
  }

  /** and its total is not zero, so its R squared is a share of it, and is 1 exactly when every point is on the line. */
  lemma {:induction false} RSquaredIsShare(p: seq<Point>)
    requires FitLine(p).Ok?
    ensures var l := FitLine(p).line;
      Syy(p) > 0.0 && IsShare(p, l.slope, l.intercept, l.rSquared)
  {
    LineIs(p);
    SlopingShare(p);
  }

  /** What an answer is made of. */
  lemma {:induction false} LineIs(p: seq<Point>)
    requires FitLine(p).Ok?
    ensures var l := FitLine(p).line;
      && p != [] && Sxx(p) != 0.0 && l.slope == Slope(p) != 0.0 && l.intercept == Intercept(p)
      && (Syy(p) > 0.0 ==> l.rSquared == 1.0 - Residual(p, l.slope, l.intercept) / Syy(p))
  {}

  lemma {:induction false} SlopingShare(p: seq<Point>)
    requires p != [] && Sxx(p) != 0.0 && Slope(p) != 0.0
    ensures Syy(p) > 0.0
    ensures IsShare(p, Slope(p), Intercept(p), 1.0 - Residual(p, Slope(p), Intercept(p)) / Syy(p))
  {
    SlopeExplains(p);
    LineShare(p, Slope(p), Intercept(p), Syy(p));
  }

  lemma {:induction false} SlopeExplains(p: seq<Point>)
    requires p != [] && Sxx(p) != 0.0 && Slope(p) != 0.0
    ensures 0.0 <= Residual(p, Slope(p), Intercept(p)) <= Syy(p) && Syy(p) > 0.0
  {
    Explained(p);
  }

  /** A share of the unit interval, whole exactly when every point is on the line. */
  ghost predicate IsShare(p: seq<Point>, slope: real, intercept: real, share: real) {
    0.0 <= share <= 1.0 && (share == 1.0 <==> OnLine(p, slope, intercept))
  }

  lemma {:induction false} LineShare(p: seq<Point>, a: real, b: real, total: real)
    requires 0.0 <= Residual(p, a, b) <= total && total > 0.0
    ensures IsShare(p, a, b, 1.0 - Residual(p, a, b) / total)
  {
    ResidualVanishes(p, a, b);
    Share(Residual(p, a, b), total);
  }

  lemma LevelApart(u: real, s: real, z: Point)
    ensures ApartSquared(s * u, -s)(z) == Scaled(Square(s), SquareX(u))(z)
  {
    Distribute(s, u, -z.x);
    assert s * u + -s * z.x == s * (u - z.x);
    SquareOfProduct(s, u - z.x);
    NegatedSquare(z.x - u);
  }

  lemma SquareOfProduct(s: real, d: real)
    ensures Square(s * d) == Square(s) * Square(d)
  {}

  /** A level line through the means lies apart from the fitted one by the slope's share of the abscissas' spread. */
  lemma {:induction false} LevelApartTotal(p: seq<Point>, u: real, s: real)
    ensures Total(p, ApartSquared(s * u, -s)) == Square(s) * Total(p, SquareX(u))
  {
    LevelApartSame(p, u, s);
    ScaledTotal(p, Square(s), SquareX(u));
  }

  lemma {:induction false} LevelApartSame(p: seq<Point>, u: real, s: real)
    ensures Total(p, ApartSquared(s * u, -s)) == Total(p, Scaled(Square(s), SquareX(u)))
  {
    forall z: Point ensures ApartSquared(s * u, -s)(z) == Scaled(Square(s), SquareX(u))(z) { LevelApart(u, s, z); }
    SameTotal(p, ApartSquared(s * u, -s), Scaled(Square(s), SquareX(u)));
  }

  lemma {:induction false} SameTotal(p: seq<Point>, f: Term, g: Term)
    requires forall z: Point :: f(z) == g(z)
    ensures Total(p, f) == Total(p, g)
  {
    if p != [] { SameTotal(p[1..], f, g); }
  }

  lemma {:induction false} LevelResidual(p: seq<Point>)
    requires p != []
    ensures Residual(p, 0.0, MeanY(p)) == Syy(p)
  {
    LevelCombines(MeanY(p));
    Combines(p, SquaredResidual(0.0, MeanY(p)), SquareY(MeanY(p)), 0.0, One());
  }

  /** What the fitted line leaves of the total. */
  lemma {:induction false} ResidualIs(p: seq<Point>)
    requires p != [] && Sxx(p) != 0.0
    ensures Divides(Residual(p, Slope(p), Intercept(p)), Syy(p), Slope(p), Sxx(p), Sxy(p))
  {
    ResidualLeft(p);
    SlopeTimes(p);
  }

  lemma {:induction false} SlopeTimes(p: seq<Point>)
    requires p != [] && Sxx(p) != 0.0
    ensures Slope(p) * Sxx(p) == Sxy(p)
  {
    Quotient(Sxy(p), Sxx(p));
  }

  lemma {:induction false} ResidualLeft(p: seq<Point>)
    requires p != [] && Sxx(p) != 0.0
    ensures Syy(p) == Residual(p, Slope(p), Intercept(p)) + Square(Slope(p)) * Sxx(p)
  {
    FitIsNormal(p);
    LevelExcess(p, MeanX(p), MeanY(p), Slope(p), Intercept(p));
    LevelResidual(p);
  }

  /** The total is what the line leaves and what its slope explains. */
  ghost predicate Divides(residual: real, total: real, s: real, sxx: real, sxy: real) {
    total == residual + Square(s) * sxx && s * sxx == sxy
  }

  /** share is the squared joint spread of abscissas and ordinates over the product of their own. */
  ghost predicate Correlation(share: real, sxx: real, syy: real, sxy: real) { share * (sxx * syy) == Square(sxy) }

  lemma {:induction false} LevelExcess(p: seq<Point>, u: real, v: real, s: real, c: real)
    requires Normal(p, u, s, c) && c == v - s * u
    ensures Residual(p, 0.0, v) == Residual(p, s, c) + Square(s) * Total(p, SquareX(u))
  {
    ResidualExcess(p, u, s, c, s * u, -s);
    assert s + -s == 0.0 && c + s * u == v;
    LevelApartTotal(p, u, s);
  }

  lemma Correlates(residual: real, total: real, s: real, sxx: real, sxy: real)
    requires total > 0.0 && Divides(residual, total, s, sxx, sxy)
    ensures Correlation(1.0 - residual / total, sxx, total, sxy)
  {
    var q := residual / total;
    Quotient(residual, total);
    Distribute(sxx * total, 1.0, -q);
    assert sxx * total * q == sxx * residual;
    Distribute(sxx, total, -residual);
    SquareOfProduct(s, sxx);
  }

  /** R squared is the square of the correlation of abscissas and ordinates. */
  lemma {:induction false} RSquaredIsCorrelation(p: seq<Point>, line: Line)
    requires FitLine(p) == Ok(line)
    ensures Correlation(line.rSquared, Sxx(p), Syy(p), Sxy(p))
  {
    LineIs(p);
    ShareIsCorrelation(p, line.rSquared);
  }

  lemma {:induction false} ShareIsCorrelation(p: seq<Point>, share: real)
    requires p != [] && Sxx(p) != 0.0 && Slope(p) != 0.0
    requires Syy(p) > 0.0 ==> share == 1.0 - Residual(p, Slope(p), Intercept(p)) / Syy(p)
    ensures Correlation(share, Sxx(p), Syy(p), Sxy(p))
  {
    SlopingCorrelates(p);
  }

  lemma {:induction false} SlopingCorrelates(p: seq<Point>)
    requires p != [] && Sxx(p) != 0.0 && Slope(p) != 0.0
    ensures Syy(p) > 0.0
    ensures Correlation(1.0 - Residual(p, Slope(p), Intercept(p)) / Syy(p), Sxx(p), Syy(p), Sxy(p))
  {
    SlopeExplains(p);
    ResidualIs(p);
    Correlates(Residual(p, Slope(p), Intercept(p)), Syy(p), Slope(p), Sxx(p), Sxy(p));
  }

  lemma QuotientVanishes(x: real, y: real)
    requires y != 0.0
    ensures x / y == 0.0 <==> x == 0.0
  {
    Quotient(x, y);
    if x / y == 0.0 { ZeroProduct(x / y, y); }
  }

  /** Two of the points stand over different abscissas. */
  ghost predicate Spread(p: seq<Point>) { exists i, j :: 0 <= i < j < |p| && p[i].x != p[j].x }

  /** The fit answers exactly when two abscissas differ and abscissas and ordinates vary together; other
      points divide by zero, and no points are an error of their own. */
  lemma FitAnswers(p: seq<Point>)
    ensures FitLine(p).Ok? <==> Spread(p) && Sxy(p) != 0.0
    ensures FitLine(p) == Err(NoData) <==> p == []
    ensures FitLine(p) == Err(DivisionByZero) <==> p != [] && !(Spread(p) && Sxy(p) != 0.0)
  {
    if p != [] {
      DenominatorZero(p);
      if Sxx(p) != 0.0 { QuotientVanishes(Sxy(p), Sxx(p)); }
    }
  }

  /** Points on a line that is not level give back that line, with R squared 1. */
  lemma LineIsRecovered(p: seq<Point>, m: real, c: real)
    requires p != [] && m != 0.0 && Sxx(p) != 0.0
    requires OnLine(p, m, c)
    ensures FitLine(p) == Ok(Line(m, 1048576.0 / m, c, 1.0))
  {
    ResidualVanishes(p, m, c);
    ResidualVanishes(p, Slope(p), Intercept(p));
    LeastSquares(p, m, c);
    RSquaredIsShare(p);
  }

  /** The guard for a zero total is never needed: level points have no slope and fail before it. */
  lemma LevelPointsFail(p: seq<Point>)
    requires p != [] && Syy(p) == 0.0
    ensures FitLine(p) == Err(DivisionByZero)
  {
    if Sxx(p) != 0.0 { Explained(p); }
  }
}
