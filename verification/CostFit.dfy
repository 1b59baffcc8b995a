/** The clamped least-squares fit of per-fit cost against rows and columns. */
module CostFit {
  import opened Prelude

  datatype Sample = Sample(rows: int, columns: int, perFit: real)

  datatype Fit = Fit(a: real, b: real)

  datatype Fault = NoSamples | ZeroDivision

  function X(s: Sample): real { (s.rows * (s.columns * s.columns)) as real }

  // A sum over samples.
  function Sum(samples: seq<Sample>, f: Sample -> real): real {
    if samples == [] then 0.0 else Sum(samples[..|samples| - 1], f) + f(samples[|samples| - 1])
  }

  function SumX(samples: seq<Sample>): real { Sum(samples, (s: Sample) => X(s)) }
  function SumY(samples: seq<Sample>): real { Sum(samples, (s: Sample) => s.perFit) }
  function SumXX(samples: seq<Sample>): real { Sum(samples, (s: Sample) => X(s) * X(s)) }
  function SumXY(samples: seq<Sample>): real { Sum(samples, (s: Sample) => X(s) * s.perFit) }

  // Deviations from the means.
  function SquareDev(mx: real): Sample -> real { (s: Sample) => (X(s) - mx) * (X(s) - mx) }

  function CrossDev(mx: real, my: real): Sample -> real { (s: Sample) => (X(s) - mx) * (s.perFit - my) }

  function DevXX(samples: seq<Sample>, mx: real): real { Sum(samples, SquareDev(mx)) }

  function DevXY(samples: seq<Sample>, mx: real, my: real): real { Sum(samples, CrossDev(mx, my)) }

  function MeanX(samples: seq<Sample>): real
    requires samples != []
  {
    SumX(samples) / |samples| as real
  }

  function MeanY(samples: seq<Sample>): real
    requires samples != []
  {
    SumY(samples) / |samples| as real
  }

  // The unclamped slope: zero when every `x` is the same.
  function Slope(samples: seq<Sample>): real
    requires samples != []
  {
    var mx, my := MeanX(samples), MeanY(samples);
    if DevXX(samples, mx) > 0.0 then DevXY(samples, mx, my) / DevXX(samples, mx) else 0.0
  }

  function Intercept(samples: seq<Sample>): real
    requires samples != []
  {
    MeanY(samples) - Slope(samples) * MeanX(samples)
  }

  function FitCoefficients(samples: seq<Sample>): Result<Fit, Fault> {
    if samples == [] then Err(NoSamples) else
      var a, b := Intercept(samples), Slope(samples);
      if b < 0.0 then Ok(Fit(MeanY(samples), 0.0))
      else if a < 0.0 then
        if SumXX(samples) == 0.0 then Err(ZeroDivision) else Ok(Fit(0.0, SumXY(samples) / SumXX(samples)))
      else Ok(Fit(a, b))
  }

  // The sum of squared residuals.
  function Loss(samples: seq<Sample>, a: real, b: real): real { Sum(samples, SquaredResidual(a, b)) }

  function SquaredResidual(a: real, b: real): Sample -> real {
    (s: Sample) => (s.perFit - a - b * X(s)) * (s.perFit - a - b * X(s))
  }

  /* ---- Moments ---- */

  // The coefficients of a quadratic polynomial in a sample's `x` and `y`.
  datatype Quadratic = Quadratic(one: real, x: real, y: real, xx: real, xy: real, yy: real)

  function At(q: Quadratic, x: real, y: real): real {
    q.one + q.x * x + q.y * y + q.xx * (x * x) + q.xy * (x * y) + q.yy * (y * y)
  }

  function SumYY(samples: seq<Sample>): real { Sum(samples, (s: Sample) => s.perFit * s.perFit) }

  function Moments(q: Quadratic, samples: seq<Sample>): real {
    q.one * |samples| as real + q.x * SumX(samples) + q.y * SumY(samples)
    + q.xx * SumXX(samples) + q.xy * SumXY(samples) + q.yy * SumYY(samples)
  }

  // The sum of a quadratic is its moments' combination.
  lemma {:induction false} SumQuadratic(samples: seq<Sample>, f: Sample -> real, q: Quadratic)
    requires forall s :: s in samples ==> f(s) == At(q, X(s), s.perFit)
    ensures Sum(samples, f) == Moments(q, samples)
  {
    hide At, X;
    if samples != [] {
      var rest, last := samples[..|samples| - 1], samples[|samples| - 1];
      SumQuadratic(rest, f, q);
      MomentsStep(q, rest, last);
      assert samples == rest + [last];
    }
  }

  lemma MomentsStep(q: Quadratic, rest: seq<Sample>, last: Sample)
    ensures Moments(q, rest + [last]) == Moments(q, rest) + At(q, X(last), last.perFit)
  {
  }

  lemma {:induction false} SumNonnegative(samples: seq<Sample>, f: Sample -> real)
    requires forall s :: s in samples ==> f(s) >= 0.0
    ensures Sum(samples, f) >= 0.0
  {
    if samples != [] {
      SumNonnegative(samples[..|samples| - 1], f);
      assert samples[|samples| - 1] in samples;
    }
  }

  lemma Square(x: real)
    ensures x * x >= 0.0
  {
  }

  /* ---- Optimality ---- */

  // The residuals' sum, and their sum weighted by `x`.
  function Slope0(samples: seq<Sample>, a: real, b: real): real {
    SumY(samples) - |samples| as real * a - b * SumX(samples)
  }

  function Slope1(samples: seq<Sample>, a: real, b: real): real {
    SumXY(samples) - a * SumX(samples) - b * SumXX(samples)
  }

  lemma LossMoments(samples: seq<Sample>, a: real, b: real)
    ensures Loss(samples, a, b) == Moments(Quadratic(a * a, 2.0 * (a * b), -2.0 * a, b * b, -2.0 * b, 1.0), samples)
  {
    hide X, Sum, Moments, At, SquaredResidual;
    var q := Quadratic(a * a, 2.0 * (a * b), -2.0 * a, b * b, -2.0 * b, 1.0);
    forall s ensures SquaredResidual(a, b)(s) == At(q, X(s), s.perFit) {
      ResidualAt(a, b, s);
    }
    SumQuadratic(samples, SquaredResidual(a, b), q);
  }

  lemma ResidualAt(a: real, b: real, s: Sample)
    ensures SquaredResidual(a, b)(s) ==
            At(Quadratic(a * a, 2.0 * (a * b), -2.0 * a, b * b, -2.0 * b, 1.0), X(s), s.perFit)
  {
    hide X, At;
    ResidualSquare(a, b, X(s), s.perFit);
  }

  lemma ResidualSquare(a: real, b: real, x: real, y: real)
    ensures (y - a - b * x) * (y - a - b * x) == At(Quadratic(a * a, 2.0 * (a * b), -2.0 * a, b * b, -2.0 * b, 1.0), x, y)
  {
  }

  // The curvature term is a sum of squares.
  lemma Curvature(samples: seq<Sample>, d: real, e: real)
    ensures |samples| as real * (d * d) + 2.0 * (d * e) * SumX(samples) + e * e * SumXX(samples) >= 0.0
  {
    var q := Quadratic(d * d, 2.0 * (d * e), 0.0, e * e, 0.0, 0.0);
    var f := (s: Sample) => (d + e * X(s)) * (d + e * X(s));
    forall s ensures f(s) == At(q, X(s), s.perFit) && f(s) >= 0.0 {
      LineSquare(d, e, X(s), s.perFit);
      Square(d + e * X(s));
    }
    SumQuadratic(samples, f, q);
    SumNonnegative(samples, f);
  }

  lemma LineSquare(d: real, e: real, x: real, y: real)
    ensures (d + e * x) * (d + e * x) == At(Quadratic(d * d, 2.0 * (d * e), 0.0, e * e, 0.0, 0.0), x, y)
  {
  }

  lemma LossDifference(n: real, sx: real, sy: real, sxx: real, sxy: real, syy: real, a: real, b: real, c: real, f: real, d: real, e: real)
    requires c == a + d && f == b + e
    ensures Expanded(n, sx, sy, sxx, sxy, syy, c, f) - Expanded(n, sx, sy, sxx, sxy, syy, a, b)
            == (n * (d * d) + 2.0 * (d * e) * sx + e * e * sxx)
               - 2.0 * (d * (sy - n * a - b * sx) + e * (sxy - a * sx - b * sxx))
  {
  }

  // Non-negative coefficients at which no feasible direction descends are the best ones.
  lemma Stationary(samples: seq<Sample>, a: real, b: real, c: real, f: real)
    requires a >= 0.0 && b >= 0.0 && c >= 0.0 && f >= 0.0
    requires Slope0(samples, a, b) <= 0.0 && a * Slope0(samples, a, b) == 0.0
    requires Slope1(samples, a, b) <= 0.0 && b * Slope1(samples, a, b) == 0.0
    ensures Loss(samples, a, b) <= Loss(samples, c, f)
  {
    hide Loss, SumX, SumY, SumXX, SumXY, SumYY;
    var n, sx, sy, sxx, sxy, syy :=
      |samples| as real, SumX(samples), SumY(samples), SumXX(samples), SumXY(samples), SumYY(samples);
    var d, e := c - a, f - b;
    LossExpanded(samples, a, b);
    LossExpanded(samples, c, f);
    LossDifference(n, sx, sy, sxx, sxy, syy, a, b, c, f, d, e);
    Curvature(samples, d, e);
    Descent(a, c, Slope0(samples, a, b));
    Descent(b, f, Slope1(samples, a, b));
    Compare(Expanded(n, sx, sy, sxx, sxy, syy, a, b), Expanded(n, sx, sy, sxx, sxy, syy, c, f),
            n * (d * d) + 2.0 * (d * e) * sx + e * e * sxx,
            d * Slope0(samples, a, b), e * Slope1(samples, a, b));
  }

  lemma Compare(less: real, more: real, curvature: real, x: real, y: real)
    requires more - less == curvature - 2.0 * (x + y) && curvature >= 0.0 && x <= 0.0 && y <= 0.0
    ensures less <= more
  {
  }

  function Expanded(n: real, sx: real, sy: real, sxx: real, sxy: real, syy: real, a: real, b: real): real {
    a * a * n + 2.0 * (a * b) * sx + -2.0 * a * sy + b * b * sxx + -2.0 * b * sxy + 1.0 * syy
  }

  lemma LossExpanded(samples: seq<Sample>, a: real, b: real)
    ensures Loss(samples, a, b) ==
            Expanded(|samples| as real, SumX(samples), SumY(samples), SumXX(samples), SumXY(samples), SumYY(samples), a, b)
  {
    hide Loss, SumX, SumY, SumXX, SumXY, SumYY;
    LossMoments(samples, a, b);
  }

  lemma Descent(a: real, c: real, r: real)
    requires r <= 0.0 && a * r == 0.0 && c >= 0.0
    ensures (c - a) * r <= 0.0
  {
  }

  /* ---- The three branches ---- */

  lemma Deviations(samples: seq<Sample>, mx: real, my: real)
    requires SumX(samples) == |samples| as real * mx && SumY(samples) == |samples| as real * my
    ensures DevXX(samples, mx) == SumXX(samples) - |samples| as real * (mx * mx)
    ensures DevXY(samples, mx, my) == SumXY(samples) - |samples| as real * (mx * my)
    ensures DevXX(samples, mx) >= 0.0
  {
    hide SumX, SumY, SumXX, SumXY, DevXX, DevXY;
    var n := |samples| as real;
    DevXXMoments(samples, mx);
    DevXYMoments(samples, mx, my);
    DevTotals(n, mx, my, SumXX(samples), SumXY(samples), SumX(samples), SumY(samples));
  }

  // The deviations as quadratics.
  function SquareShape(mx: real): Quadratic { Quadratic(mx * mx, -2.0 * mx, 0.0, 1.0, 0.0, 0.0) }

  function CrossShape(mx: real, my: real): Quadratic { Quadratic(mx * my, -my, -mx, 0.0, 1.0, 0.0) }

  lemma DevXXMoments(samples: seq<Sample>, mx: real)
    ensures DevXX(samples, mx) == mx * mx * |samples| as real + -2.0 * mx * SumX(samples) + SumXX(samples)
    ensures DevXX(samples, mx) >= 0.0
  {
    hide X, Sum, SumX, SumY, SumXX, SumXY, SumYY, At, SquareDev;
    forall s: Sample ensures SquareDev(mx)(s) == At(SquareShape(mx), X(s), s.perFit) && SquareDev(mx)(s) >= 0.0 {
      SquareAt(mx, s);
    }
    SumQuadratic(samples, SquareDev(mx), SquareShape(mx));
    SumNonnegative(samples, SquareDev(mx));
  }

  lemma DevXYMoments(samples: seq<Sample>, mx: real, my: real)
    ensures DevXY(samples, mx, my) ==
            mx * my * |samples| as real + -my * SumX(samples) + -mx * SumY(samples) + SumXY(samples)
  {
    hide X, Sum, SumX, SumY, SumXX, SumXY, SumYY, At, CrossDev;
    forall s: Sample ensures CrossDev(mx, my)(s) == At(CrossShape(mx, my), X(s), s.perFit) {
      CrossAt(mx, my, s);
    }
    SumQuadratic(samples, CrossDev(mx, my), CrossShape(mx, my));
  }

  lemma SquareAt(mx: real, s: Sample)
    ensures SquareDev(mx)(s) == At(SquareShape(mx), X(s), s.perFit) && SquareDev(mx)(s) >= 0.0
  {
    hide X;
    Square(X(s) - mx);
  }

  lemma CrossAt(mx: real, my: real, s: Sample)
    ensures CrossDev(mx, my)(s) == At(CrossShape(mx, my), X(s), s.perFit)
  {
    hide X;
  }

  lemma DevTotals(n: real, mx: real, my: real, sxx: real, sxy: real, sx: real, sy: real)
    requires sx == n * mx && sy == n * my
    ensures mx * mx * n + -2.0 * mx * sx + sxx == sxx - n * (mx * mx)
    ensures mx * my * n + -my * sx + -mx * sy + sxy == sxy - n * (mx * my)
  {
  }

  // The centred fit has zero slopes.
  lemma CentredSlopes(n: real, mx: real, my: real, sxx: real, sxy: real, a: real, b: real)
    requires b * (sxx - n * (mx * mx)) == sxy - n * (mx * my) && a == my - b * mx
    ensures n * my - n * a - b * (n * mx) == 0.0
    ensures sxy - a * (n * mx) - b * sxx == 0.0
  {
  }

  // A slope clamped at zero leaves the residuals' weighted sum non-positive.
  lemma FlatSlopes(n: real, mx: real, my: real, sxx: real, sxy: real, b: real)
    requires sxx - n * (mx * mx) > 0.0 && b < 0.0 && b * (sxx - n * (mx * mx)) == sxy - n * (mx * my)
    ensures n * my - n * my - 0.0 * (n * mx) == 0.0
    ensures sxy - my * (n * mx) - 0.0 * sxx < 0.0
  {
  }

  // A line clamped through the origin: its slope is non-negative and the residuals' sum non-positive.
  lemma OriginSlopes(n: real, mx: real, my: real, sxx: real, sxy: real, b: real, c: real)
    requires n >= 1.0 && my >= 0.0 && b >= 0.0 && my - b * mx < 0.0
    requires sxx - n * (mx * mx) >= 0.0 && b * (sxx - n * (mx * mx)) == sxy - n * (mx * my)
    requires sxx > 0.0 ==> c * sxx == sxy
    ensures sxx > 0.0 && c >= 0.0
    ensures n * my - n * 0.0 - c * (n * mx) <= 0.0
    ensures sxy - 0.0 * (n * mx) - c * sxx == 0.0
  {
    var dev := sxx - n * (mx * mx);
    PositiveMean(b, mx, my);
    Positive(mx, mx);
    Positive(n, mx * mx);
    NonNegative(b, dev);
    NonNegative(mx, my);
    NonNegative(n, mx * my);
    assert sxy >= 0.0;
    QuotientSign(c, sxx);
    // my * sxx <= c * mx * sxx
    MeanBelow(n, mx, my, sxx, sxy, b, dev);
    CancelBelow(my, c * mx, sxx, sxy, mx, c);
    NonNegative(n, c * mx - my);
    assert n * my - c * (n * mx) == -(n * (c * mx - my));
  }

  lemma PositiveMean(b: real, mx: real, my: real)
    requires my >= 0.0 && b >= 0.0 && my - b * mx < 0.0
    ensures mx > 0.0
  {
  }

  lemma Positive(x: real, y: real)
    requires x > 0.0 && y > 0.0
    ensures x * y > 0.0
  {
  }

  lemma NonNegative(x: real, y: real)
    requires x >= 0.0 && y >= 0.0
    ensures x * y >= 0.0
  {
  }

  lemma QuotientSign(c: real, d: real)
    requires d > 0.0 && c * d >= 0.0
    ensures c >= 0.0
  {
  }

  lemma MeanBelow(n: real, mx: real, my: real, sxx: real, sxy: real, b: real, dev: real)
    requires dev >= 0.0 && dev == sxx - n * (mx * mx) && b * dev == sxy - n * (mx * my) && my <= b * mx
    ensures my * sxx <= mx * sxy
  {
  }

  lemma CancelBelow(x: real, y: real, d: real, e: real, m: real, c: real)
    requires d > 0.0 && c * d == e && y == c * m && x * d <= m * e
    ensures x <= y
  {
  }

  // When every `x` is the same, there is nothing to correlate with.
  lemma {:induction false} NoSpread(samples: seq<Sample>, mx: real, my: real)
    requires DevXX(samples, mx) <= 0.0
    ensures DevXY(samples, mx, my) == 0.0
  {
    hide X, Sum;
    if samples == [] {
      NoSum(SquareDev(mx), CrossDev(mx, my));
    } else {
      var rest, last := samples[..|samples| - 1], samples[|samples| - 1];
      SumLast(samples, SquareDev(mx));
      SumLast(samples, CrossDev(mx, my));
      Square(X(last) - mx);
      forall s: Sample ensures SquareDev(mx)(s) >= 0.0 { Square(X(s) - mx); }
      SumNonnegative(rest, SquareDev(mx));
      NoSpread(rest, mx, my);
      ZeroSquare(X(last) - mx, SquareDev(mx)(last));
    }
  }

  lemma NoSum(f: Sample -> real, g: Sample -> real)
    ensures Sum([], f) == Sum([], g) == 0.0
  {
  }

  lemma SumLast(samples: seq<Sample>, f: Sample -> real)
    requires samples != []
    ensures Sum(samples, f) == Sum(samples[..|samples| - 1], f) + f(samples[|samples| - 1])
  {
  }

  lemma ZeroSquare(x: real, p: real)
    requires p == x * x && p <= 0.0
    ensures x == 0.0
  {
    if x < 0.0 {
      PositiveProduct(-x, -x, p);
    } else if x > 0.0 {
      PositiveProduct(x, x, p);
    }
  }

  lemma PositiveProduct(x: real, y: real, p: real)
    requires x > 0.0 && y > 0.0 && p == x * y
    ensures p > 0.0
  {
  }

  // The slope solves the centred equation.
  lemma SlopeMeans(samples: seq<Sample>)
    requires samples != []
    ensures Slope(samples) * DevXX(samples, MeanX(samples)) == DevXY(samples, MeanX(samples), MeanY(samples))
  {
    hide DevXX, DevXY, MeanX, MeanY;
    var mx, my := MeanX(samples), MeanY(samples);
    if DevXX(samples, mx) <= 0.0 { NoSpread(samples, mx, my); }
  }

  /**
   * With samples whose costs do not average below zero, the clamped fit is feasible and no
   * other non-negative pair has a smaller sum of squared residuals, whichever branch it took.
   */
  lemma FitOptimal(samples: seq<Sample>, c: real, f: real)
    requires samples != [] && SumY(samples) >= 0.0 && c >= 0.0 && f >= 0.0
    ensures FitCoefficients(samples).Ok?
    ensures var fit := FitCoefficients(samples).value;
            fit.a >= 0.0 && fit.b >= 0.0 && Loss(samples, fit.a, fit.b) <= Loss(samples, c, f)
  {
    hide SumX, SumY, SumXX, SumXY, DevXX, DevXY, Loss, Slope, Intercept, MeanX, MeanY;
    if Slope(samples) < 0.0 {
      FlatBest(samples, c, f);
    } else if Intercept(samples) < 0.0 {
      OriginBest(samples, c, f);
    } else {
      CentredBest(samples, c, f);
    }
  }

  lemma FlatBest(samples: seq<Sample>, c: real, f: real)
    requires samples != [] && SumY(samples) >= 0.0 && c >= 0.0 && f >= 0.0 && Slope(samples) < 0.0
    ensures MeanY(samples) >= 0.0 && Loss(samples, MeanY(samples), 0.0) <= Loss(samples, c, f)
  {
    hide SumX, SumY, SumXX, SumXY, DevXX, DevXY, Loss, Slope, Slope0, Slope1, MeanX, MeanY;
    var n, mx, my, b := |samples| as real, MeanX(samples), MeanY(samples), Slope(samples);
    Facts(samples, my, 0.0);
    if DevXX(samples, mx) <= 0.0 { SlopeZero(samples); assert false; }
    FlatSlopes(n, mx, my, SumXX(samples), SumXY(samples), b);
    Vanishes(my, Slope0(samples, my, 0.0));
    Stationary(samples, my, 0.0, c, f);
  }

  lemma OriginBest(samples: seq<Sample>, c: real, f: real)
    requires samples != [] && SumY(samples) >= 0.0 && c >= 0.0 && f >= 0.0
    requires Slope(samples) >= 0.0 && Intercept(samples) < 0.0
    ensures SumXX(samples) > 0.0
    ensures var b := SumXY(samples) / SumXX(samples); b >= 0.0 && Loss(samples, 0.0, b) <= Loss(samples, c, f)
  {
    hide SumX, SumY, SumXX, SumXY, DevXX, DevXY, Loss, Slope, Slope0, Slope1, MeanX, MeanY;
    var n, mx, my, b := |samples| as real, MeanX(samples), MeanY(samples), Slope(samples);
    var sxx, sxy := SumXX(samples), SumXY(samples);
    var through := if sxx == 0.0 then 0.0 else sxy / sxx;
    Facts(samples, 0.0, through);
    OriginSlopes(n, mx, my, sxx, sxy, b, through);
    Vanishes(through, Slope1(samples, 0.0, through));
    Stationary(samples, 0.0, through, c, f);
  }

  lemma CentredBest(samples: seq<Sample>, c: real, f: real)
    requires samples != [] && c >= 0.0 && f >= 0.0
    requires Slope(samples) >= 0.0 && Intercept(samples) >= 0.0
    ensures Loss(samples, Intercept(samples), Slope(samples)) <= Loss(samples, c, f)
  {
    hide SumX, SumY, SumXX, SumXY, DevXX, DevXY, Loss, Slope, Slope0, Slope1, MeanX, MeanY;
    var n, mx, my, b := |samples| as real, MeanX(samples), MeanY(samples), Slope(samples);
    var a := Intercept(samples);
    Facts(samples, a, b);
    CentredSlopes(n, mx, my, SumXX(samples), SumXY(samples), a, b);
    Vanishes(a, Slope0(samples, a, b));
    Vanishes(b, Slope1(samples, a, b));
    Stationary(samples, a, b, c, f);
  }

  // Everything the branches need about the sums, in terms of the means.
  lemma Facts(samples: seq<Sample>, a: real, b: real)
    requires samples != []
    ensures var n, mx, my := |samples| as real, MeanX(samples), MeanY(samples);
            && (SumY(samples) >= 0.0 ==> my >= 0.0)
            && DevXX(samples, mx) == SumXX(samples) - n * (mx * mx) >= 0.0
            && Slope(samples) * (SumXX(samples) - n * (mx * mx)) == SumXY(samples) - n * (mx * my)
            && Slope0(samples, a, b) == n * my - n * a - b * (n * mx)
            && Slope1(samples, a, b) == SumXY(samples) - a * (n * mx) - b * SumXX(samples)
  {
    hide SumX, SumY, SumXX, SumXY, DevXX, DevXY, Slope, Slope0, Slope1, MeanX, MeanY;
    Means(samples);
    Deviations(samples, MeanX(samples), MeanY(samples));
    SlopeMeans(samples);
    Slopes(samples, |samples| as real, MeanX(samples), MeanY(samples));
  }

  lemma Vanishes(a: real, r: real)
    requires r == 0.0
    ensures a * r == 0.0
  {
  }

  lemma Means(samples: seq<Sample>)
    requires samples != []
    ensures SumX(samples) == |samples| as real * MeanX(samples)
    ensures SumY(samples) == |samples| as real * MeanY(samples)
    ensures SumY(samples) >= 0.0 ==> MeanY(samples) >= 0.0
  {
  }

  lemma SlopeZero(samples: seq<Sample>)
    requires samples != [] && DevXX(samples, MeanX(samples)) <= 0.0
    ensures Slope(samples) == 0.0
  {
  }

  lemma Slopes(samples: seq<Sample>, n: real, mx: real, my: real)
    requires n == |samples| as real && SumX(samples) == n * mx && SumY(samples) == n * my
    ensures forall a, b :: Slope0(samples, a, b) == n * my - n * a - b * (n * mx)
    ensures forall a, b :: Slope1(samples, a, b) == SumXY(samples) - a * (n * mx) - b * SumXX(samples)
  {
  }

  // The fit raises exactly without samples, or when every `x` is zero and the mean cost is negative.
  lemma FitRaises(samples: seq<Sample>)
    ensures FitCoefficients(samples).Err? <==> samples == [] || (SumXX(samples) == 0.0 && MeanY(samples) < 0.0)
  {
    if samples != [] && SumXX(samples) == 0.0 {
      hide SumX, SumY, SumXX, SumXY, DevXX, DevXY, Slope, Slope0, Slope1, MeanX, MeanY;
      var n, mx := |samples| as real, MeanX(samples);
      Facts(samples, 0.0, 0.0);
      NoMean(n, mx);
      SlopeZero(samples);
      Vanishes(mx, Slope(samples));
    }
  }

  lemma NoMean(n: real, mx: real)
    requires n >= 1.0 && 0.0 - n * (mx * mx) >= 0.0
    ensures mx == 0.0 && n * (mx * mx) == 0.0
  {
    Square(mx);
    var p := mx * mx;
    if p > 0.0 { PositiveProduct(n, p, n * p); assert false; }
    ZeroSquare(mx, p);
  }

  // The loss, spelled out: one sample more adds the square of its residual.
  lemma LossMeans(samples: seq<Sample>, last: Sample, a: real, b: real)
    ensures Loss([], a, b) == 0.0
    ensures var residual := last.perFit - a - b * (last.rows * last.columns * last.columns) as real;
            Loss(samples + [last], a, b) == Loss(samples, a, b) + residual * residual
  {
    var all := samples + [last];
    assert all[..|all| - 1] == samples;
    assert last.rows * (last.columns * last.columns) == last.rows * last.columns * last.columns;
    assert SquaredResidual(a, b)(last) ==
      (last.perFit - a - b * X(last)) * (last.perFit - a - b * X(last));
  }
}
