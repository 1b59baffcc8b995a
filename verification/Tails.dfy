/**
 * The loop that sums a binomial tail from its largest term down, and how much of the tail it
 * leaves out when it breaks early.  Logarithms and exponentials are replaced by the products
 * they stand for.  `eps` is the break threshold: `EPS` is the code's, and at `0.0` the loop
 * never breaks.
 */
module Tails {
  import opened Binomial

  // The code's threshold.
  const EPS: real := 1.0 / 4503599627370496.0

  // `left` is the number of terms the early break left out.
  datatype Tail = Tail(total: real, left: nat)

  function Factor(n: nat, p: real, j: nat): real
    requires 1 <= j <= n && 0.0 < p < 1.0
  {
    j as real / (n - j + 1) as real * (1.0 - p) / p
  }

  function TailFrom(n: nat, p: real, eps: real, j: nat, term: real, total: real): Tail
    requires j <= n && 0.0 < p < 1.0
  {
    if j == 0 then Tail(total, 0) else
      var next := term * Factor(n, p, j);
      var sum := total + next;
      if next <= sum * eps then Tail(sum, j - 1) else TailFrom(n, p, eps, j - 1, next, sum)
  }

  // The point mass at `k`, from factorials.
  function PointMass(n: nat, k: nat, p: real): real
    requires k <= n
  {
    Fact(n) as real / (Fact(k) as real * Fact(n - k) as real) * (Pow(p, k) * Pow(1.0 - p, n - k))
  }

  function Direct(n: nat, k: nat, p: real, eps: real): real
    requires k <= n && 0.0 < p < 1.0
  {
    PointMass(n, k, p) * TailFrom(n, p, eps, k, 1.0, 1.0).total
  }

  /* ---- One turn of the loop ---- */

  // The probability of fewer than `j` successes.
  function Under(n: nat, p: real, j: nat): real
    requires j <= n + 1
  {
    if j == 0 then 0.0 else Cdf(n, p, j - 1)
  }

  lemma PointMassIsPmf(n: nat, k: nat, p: real)
    requires k <= n
    ensures PointMass(n, k, p) == Pmf(n, p, k)
  {
    hide Pow, Fact, Choose;
    ChooseFact(n, k);
    CastProduct(Fact(k), Fact(n - k));
    CastProduct(Choose(n, k), Fact(k) * Fact(n - k));
    Quotient(Choose(n, k) as real, Fact(k) as real * Fact(n - k) as real, Fact(n) as real);
  }

  lemma Quotient(c: real, d: real, f: real)
    requires d > 0.0 && c * d == f
    ensures f / d == c
  {
  }

  lemma FactorMoves(n: nat, p: real, j: nat, mass: real, term: real)
    requires 1 <= j <= n && 0.0 < p < 1.0
    requires mass * term == Pmf(n, p, j)
    ensures mass * (term * Factor(n, p, j)) == Pmf(n, p, j - 1)
  {
    hide Pmf;
    PmfRatio(n, p, j);
    FactorCancels(j as real, (n - j + 1) as real, p, mass, term, Pmf(n, p, j), Pmf(n, p, j - 1));
  }

  lemma FactorCancels(j: real, m: real, p: real, mass: real, term: real, x: real, y: real)
    requires j >= 1.0 && m >= 1.0 && 0.0 < p < 1.0
    requires mass * term == x && x * (j * (1.0 - p)) == y * (m * p)
    ensures mass * (term * (j / m * (1.0 - p) / p)) == y
  {
  }

  lemma FactorProduct(j: real, m: real, p: real)
    requires m >= 1.0 && 0.0 < p
    ensures (j / m * (1.0 - p) / p) * (m * p) == j * (1.0 - p)
  {
  }

  // What is known before the turn for `j`: the term and the running total, times the mass.
  ghost predicate Summing(n: nat, p: real, k: nat, mass: real, j: nat, term: real, total: real) {
    && j <= k <= n && mass > 0.0 && term > 0.0 && total >= term
    && mass * term == Pmf(n, p, j)
    && mass * total == Cdf(n, p, k) - Under(n, p, j)
  }

  lemma SummingStarts(n: nat, p: real, k: nat)
    requires k <= n && 0.0 < p < 1.0
    ensures Summing(n, p, k, PointMass(n, k, p), k, 1.0, 1.0)
  {
    hide Pmf, PointMass;
    PointMassIsPmf(n, k, p);
    PmfSign(n, p, k);
  }

  lemma SummingMoves(n: nat, p: real, k: nat, mass: real, j: nat, term: real, total: real)
    requires 0.0 < p < 1.0 && j > 0 && Summing(n, p, k, mass, j, term, total)
    ensures var next := term * Factor(n, p, j);
            Summing(n, p, k, mass, j - 1, next, total + next)
  {
    hide Pmf, Factor;
    var next := term * Factor(n, p, j);
    FactorMoves(n, p, j, mass, term);
    PmfSign(n, p, j - 1);
    SignOf(mass, next);
    assert mass * (total + next) == mass * total + mass * next;
  }

  lemma SignOf(x: real, y: real)
    requires x > 0.0 && x * y > 0.0
    ensures y > 0.0
  {
  }

  // Below the mean the factor is below one: every later term is smaller than the one before.
  lemma FactorFalls(n: nat, p: real, j: nat)
    requires 1 <= j <= n && 0.0 < p < 1.0 && j as real < n as real * p
    ensures 0.0 < Factor(n, p, j) < 1.0
  {
    FactorBelow(j as real, n as real, (n - j + 1) as real, p, Factor(n, p, j));
  }

  lemma FactorBelow(j: real, n: real, m: real, p: real, f: real)
    requires 1.0 <= j && 0.0 < p < 1.0 && j < n * p && m == n - j + 1.0 && m >= 1.0
    requires f == j / m * (1.0 - p) / p
    ensures 0.0 < f < 1.0
  {
    FactorProduct(j, m, p);
    GapPositive(j, n, p);
    Between(f, m * p, j * (1.0 - p));
  }

  lemma Between(f: real, d: real, e: real)
    requires f * d == e && 0.0 < e < d
    ensures 0.0 < f < 1.0
  {
    if f <= 0.0 { Scale(d, f, 0.0); assert false; }
    if f >= 1.0 { Scale(d, 1.0, f); assert false; }
  }

  /* ---- The loop as a whole ---- */

  lemma {:induction false} TailSums(n: nat, p: real, k: nat, mass: real, j: nat, term: real, total: real)
    requires 0.0 < p < 1.0 && Summing(n, p, k, mass, j, term, total)
    ensures mass * TailFrom(n, p, 0.0, j, term, total).total == Cdf(n, p, k)
  {
    hide Pmf, Factor, Cdf;
    if j > 0 {
      var next := term * Factor(n, p, j);
      SummingMoves(n, p, k, mass, j, term, total);
      TailSums(n, p, k, mass, j - 1, next, total + next);
    }
  }

  // A result of the loop: never above the sum, and short by its left-out terms at most.
  ghost predicate Closes(n: nat, p: real, eps: real, k: nat, mass: real, t: Tail)
    requires k <= n
  {
    mass * t.total <= Cdf(n, p, k) <= mass * t.total * (1.0 + t.left as real * eps)
  }

  lemma TailTurn(n: nat, p: real, eps: real, j: nat, term: real, total: real)
    requires 1 <= j <= n && 0.0 < p < 1.0
    ensures var next := term * Factor(n, p, j);
            TailFrom(n, p, eps, j, term, total) ==
            if next <= (total + next) * eps then Tail(total + next, j - 1)
            else TailFrom(n, p, eps, j - 1, next, total + next)
  {
  }

  lemma {:induction false} TailCloses(n: nat, p: real, eps: real, k: nat, mass: real, j: nat, term: real, total: real)
    requires 0.0 < p < 1.0 && k as real < n as real * p && eps >= 0.0
    requires Summing(n, p, k, mass, j, term, total)
    ensures var t := TailFrom(n, p, eps, j, term, total);
            && t.left <= (if j == 0 then 0 else j - 1)
            && Closes(n, p, eps, k, mass, t)
            && t.total >= total
  {
    hide Pmf, Factor, Cdf, Under, Summing, TailFrom, Closes;
    NextPositive(n, p, k, mass, j, term, total);
    if j == 0 {
      SummingEnds(n, p, eps, k, mass, term, total);
    } else {
      var next := term * Factor(n, p, j);
      TailTurn(n, p, eps, j, term, total);
      SummingMoves(n, p, k, mass, j, term, total);
      NextPositive(n, p, k, mass, j - 1, next, total + next);
      if next <= (total + next) * eps {
        BreakCloses(n, p, eps, k, mass, j, next, total + next);
      } else {
        TailCloses(n, p, eps, k, mass, j - 1, next, total + next);
      }
    }
  }

  lemma NextPositive(n: nat, p: real, k: nat, mass: real, j: nat, term: real, total: real)
    requires Summing(n, p, k, mass, j, term, total)
    ensures j <= k <= n && term > 0.0
  {
  }

  lemma SummingEnds(n: nat, p: real, eps: real, k: nat, mass: real, term: real, total: real)
    requires 0.0 < p < 1.0 && Summing(n, p, k, mass, 0, term, total)
    ensures TailFrom(n, p, eps, 0, term, total) == Tail(total, 0)
    ensures Closes(n, p, eps, k, mass, Tail(total, 0))
  {
  }

  // Breaking after the turn for `j` leaves out `j - 1` terms, none above the last one added.
  lemma BreakCloses(n: nat, p: real, eps: real, k: nat, mass: real, j: nat, term: real, total: real)
    requires 0.0 < p < 1.0 && k as real < n as real * p && eps >= 0.0
    requires 1 <= j <= k && Summing(n, p, k, mass, j - 1, term, total)
    requires term <= total * eps
    ensures Closes(n, p, eps, k, mass, Tail(total, j - 1))
  {
    hide Pmf, Cdf;
    if j == 1 {
    } else {
      LeftOut(n, p, j - 2);
      BreakBound(mass, term, total, eps, (j - 1) as real, Cdf(n, p, j - 2));
    }
  }

  lemma LeftOut(n: nat, p: real, j: nat)
    requires j + 1 <= n && 0.0 < p < 1.0 && (j + 1) as real < n as real * p
    ensures 0.0 <= Cdf(n, p, j) <= (j + 1) as real * Pmf(n, p, j + 1)
  {
    hide Pmf, Cdf;
    CdfBounds(n, p, j);
    CdfBelow(n, p, j);
    PmfGrows(n, p, j + 1);
    Scale((j + 1) as real, Pmf(n, p, j), Pmf(n, p, j + 1));
  }

  lemma Scale(c: real, x: real, y: real)
    requires c >= 0.0 && x <= y
    ensures c * x <= c * y
  {
  }

  lemma BreakBound(mass: real, term: real, total: real, eps: real, left: real, rest: real)
    requires mass > 0.0 && left >= 0.0 && term <= total * eps && rest <= left * (mass * term)
    ensures mass * total + rest <= mass * total * (1.0 + left * eps)
  {
  }

  lemma MassPositive(n: nat, p: real, k: nat)
    requires k <= n && 0.0 < p < 1.0
    ensures PointMass(n, k, p) > 0.0
  {
    hide Pmf, PointMass;
    PointMassIsPmf(n, k, p);
    PmfSign(n, p, k);
  }

  lemma Widen(d: real, a: real, b: real, eps: real)
    requires d >= 0.0 && a <= b && eps >= 0.0
    ensures d * (1.0 + a * eps) <= d * (1.0 + b * eps)
  {
  }

  /* ---- The loop's value ---- */

  lemma DirectIs(n: nat, k: nat, p: real, eps: real)
    requires k <= n && 0.0 < p < 1.0
    ensures Direct(n, k, p, eps) == PointMass(n, k, p) * TailFrom(n, p, eps, k, 1.0, 1.0).total
  {
  }

  // Without the early break, the loop computes the lower tail exactly.
  lemma DirectExact(n: nat, k: nat, p: real)
    requires k <= n && 0.0 < p < 1.0
    ensures Direct(n, k, p, 0.0) == Cdf(n, p, k)
  {
    hide Summing, TailFrom, Direct, Cdf, PointMass;
    DirectIs(n, k, p, 0.0);
    SummingStarts(n, p, k);
    TailSums(n, p, k, PointMass(n, k, p), k, 1.0, 1.0);
  }

  // With the break the loop is at most `(k - 1) * eps` short, relatively, and never above.
  lemma DirectClose(n: nat, k: nat, p: real, eps: real)
    requires k <= n && 0.0 < p < 1.0 && k as real < n as real * p && eps >= 0.0
    ensures var d := Direct(n, k, p, eps);
            0.0 < d <= Cdf(n, p, k) <= d * (1.0 + (if k == 0 then 0 else k - 1) as real * eps)
  {
    hide Summing, TailFrom, PointMass, Cdf, Direct, Closes;
    SummingStarts(n, p, k);
    var mass := PointMass(n, k, p);
    NextPositive(n, p, k, mass, k, 1.0, 1.0);
    TailCloses(n, p, eps, k, mass, k, 1.0, 1.0);
    var t := TailFrom(n, p, eps, k, 1.0, 1.0);
    MassPositive(n, p, k);
    DirectIs(n, k, p, eps);
    ClosesBy(n, p, eps, k, mass, t, Direct(n, k, p, eps), (if k == 0 then 0 else k - 1) as real);
  }

  lemma ClosesBy(n: nat, p: real, eps: real, k: nat, mass: real, t: Tail, d: real, most: real)
    requires k <= n && Closes(n, p, eps, k, mass, t) && eps >= 0.0
    requires mass > 0.0 && t.total >= 1.0 && d == mass * t.total && t.left as real <= most
    ensures 0.0 < d <= Cdf(n, p, k) <= d * (1.0 + most * eps)
  {
    hide Cdf;
    Widen(d, t.left as real, most, eps);
  }

  /* ---- The loop of the code ---- */

  method LowerDirect(n: nat, k: nat, p: real) returns (r: real)
    requires k <= n && 0.0 < p < 1.0
    ensures r == Direct(n, k, p, 1.0 / 4503599627370496.0)
    ensures k as real < n as real * p ==>
              0.0 < r <= Cdf(n, p, k) <= r * (1.0 + (if k == 0 then 0 else k - 1) as real * (1.0 / 4503599627370496.0))
  {
    hide PointMass, Factor, Direct, Cdf;
    var mass := PointMass(n, k, p);
    var term, total := 1.0, 1.0;
    var j: nat := k;
    while j > 0
      invariant j <= k
      invariant TailFrom(n, p, EPS, k, 1.0, 1.0) == TailFrom(n, p, EPS, j, term, total)
    {
      term := term * Factor(n, p, j);
      total := total + term;
      if term <= total * EPS {
        break;
      }
      j := j - 1;
    }
    r := mass * total;
    DirectIs(n, k, p, EPS);
    if k as real < n as real * p {
      DirectClose(n, k, p, EPS);
    }
  }
}
