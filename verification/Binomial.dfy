/** Exact binomial probabilities over the reals. */
module Binomial {

  function Pow(x: real, n: nat): real {
    if n == 0 then 1.0 else x * Pow(x, n - 1)
  }

  function Fact(n: nat): (f: nat)
    ensures f > 0
  {
    if n == 0 then 1 else n * Fact(n - 1)
  }

  function Choose(n: nat, k: nat): nat {
    if k == 0 then 1 else if n == 0 then 0 else Choose(n - 1, k - 1) + Choose(n - 1, k)
  }

  // The probability of `j` successes in `n` trials.
  function Pmf(n: nat, p: real, j: nat): real
    requires j <= n
  {
    Choose(n, j) as real * (Pow(p, j) * Pow(1.0 - p, n - j))
  }

  // The probability of at most `k` successes.
  function Cdf(n: nat, p: real, k: nat): real
    requires k <= n
  {
    (if k == 0 then 0.0 else Cdf(n, p, k - 1)) + Pmf(n, p, k)
  }

  /* ---- Counting ---- */

  lemma {:induction false} ChooseZero(n: nat, k: nat)
    requires k > n
    ensures Choose(n, k) == 0
  {
    if n > 0 { ChooseZero(n - 1, k - 1); ChooseZero(n - 1, k); }
  }

  lemma {:induction false} ChooseAll(n: nat)
    ensures Choose(n, n) == 1
  {
    if n > 0 { ChooseAll(n - 1); ChooseZero(n - 1, n); }
  }

  lemma {:induction false} ChooseSymmetric(n: nat, k: nat)
    requires k <= n
    ensures Choose(n, k) == Choose(n, n - k)
  {
    if k == 0 || k == n {
      ChooseAll(n);
    } else {
      ChooseSymmetric(n - 1, k - 1);
      ChooseSymmetric(n - 1, k);
    }
  }

  lemma {:induction false} ChooseRatio(n: nat, j: nat)
    requires 1 <= j <= n
    ensures Choose(n, j) * j == Choose(n, j - 1) * (n - j + 1)
  {
    if j == n {
      ChooseAll(n);
      ChooseSymmetric(n, n - 1);
      ChooseOne(n);
    } else if j == 1 {
      ChooseOne(n);
    } else {
      ChooseRatio(n - 1, j);
      ChooseRatio(n - 1, j - 1);
      ChooseSum(Choose(n - 1, j - 2), Choose(n - 1, j - 1), Choose(n - 1, j), n, j);
    }
  }

  lemma ChooseSum(a: int, b: int, c: int, n: int, j: int)
    requires c * j == b * (n - j) && b * (j - 1) == a * (n - j + 1)
    ensures (b + c) * j == (a + b) * (n - j + 1)
  {
  }

  lemma {:induction false} ChooseOne(n: nat)
    requires n >= 1
    ensures Choose(n, 1) == n
  {
    if n > 1 { ChooseOne(n - 1); }
  }

  lemma {:induction false} ChooseFact(n: nat, k: nat)
    requires k <= n
    ensures Choose(n, k) * (Fact(k) * Fact(n - k)) == Fact(n)
  {
    if k == 0 {
    } else if k == n {
      ChooseAll(n);
    } else {
      ChooseFact(n - 1, k - 1);
      ChooseFact(n - 1, k);
      var a, b := Choose(n - 1, k - 1), Choose(n - 1, k);
      var f, g := Fact(k - 1), Fact(n - k - 1);
      FactSplit(a, b, k, n - k, f, g, Fact(n - 1));
    }
  }

  lemma FactSplit(a: int, b: int, k: int, m: int, f: int, g: int, whole: int)
    requires a * (f * (m * g)) == whole && b * ((k * f) * g) == whole
    ensures (a + b) * ((k * f) * (m * g)) == (k + m) * whole
  {
  }

  /* ---- The mass function ---- */

  lemma {:induction false} PowSign(x: real, n: nat)
    requires x >= 0.0
    ensures Pow(x, n) >= 0.0
    ensures x > 0.0 ==> Pow(x, n) > 0.0
  {
    if n > 0 { PowSign(x, n - 1); }
  }

  lemma ProductSign(c: real, x: real, y: real)
    requires c >= 0.0 && x >= 0.0 && y >= 0.0
    ensures c * (x * y) >= 0.0
    ensures c > 0.0 && x > 0.0 && y > 0.0 ==> c * (x * y) > 0.0
  {
  }

  lemma {:induction false} ChoosePositive(n: nat, k: nat)
    requires k <= n
    ensures Choose(n, k) > 0
  {
    if k > 0 { ChoosePositive(n - 1, k - 1); }
  }

  lemma PmfSign(n: nat, p: real, j: nat)
    requires j <= n && 0.0 <= p <= 1.0
    ensures Pmf(n, p, j) >= 0.0
    ensures 0.0 < p < 1.0 ==> Pmf(n, p, j) > 0.0
  {
    hide Pow, Choose;
    PowSign(p, j);
    PowSign(1.0 - p, n - j);
    ChoosePositive(n, j);
    ProductSign(Choose(n, j) as real, Pow(p, j), Pow(1.0 - p, n - j));
  }

  // One trial more.
  lemma PmfTrial(n: nat, p: real, j: nat)
    requires j <= n
    ensures Pmf(n + 1, p, j) == (1.0 - p) * Pmf(n, p, j) + (if j == 0 then 0.0 else p * Pmf(n, p, j - 1))
  {
    hide Pmf;
    if j == 0 { TrialNone(n, p); } else { TrialSome(n, p, j); }
  }

  lemma TrialNone(n: nat, p: real)
    ensures Pmf(n + 1, p, 0) == (1.0 - p) * Pmf(n, p, 0)
  {
  }

  lemma TrialSome(n: nat, p: real, j: nat)
    requires 1 <= j <= n
    ensures Pmf(n + 1, p, j) == (1.0 - p) * Pmf(n, p, j) + p * Pmf(n, p, j - 1)
  {
    hide Pmf, Weighted, Choose, Pow;
    var q, x, y := 1.0 - p, Pow(p, j - 1), Pow(1.0 - p, n - j);
    var px, qy := Pow(p, j), Pow(1.0 - p, n - j + 1);
    var a, b, c := Choose(n, j - 1) as real, Choose(n, j) as real, Choose(n + 1, j) as real;
    PowStep(p, j);
    PowStep(q, n - j + 1);
    ChooseStep(n, j);
    PmfIs(n + 1, p, j, c, px, qy);
    PmfIs(n, p, j, b, px, y);
    PmfIs(n, p, j - 1, a, x, qy);
    TrialSplit(a, b, c, p, q, x, px, y, qy, Pmf(n + 1, p, j), Pmf(n, p, j), Pmf(n, p, j - 1));
  }

  lemma ChooseStep(n: nat, j: nat)
    requires j >= 1
    ensures Choose(n + 1, j) == Choose(n, j - 1) + Choose(n, j)
  {
  }

  lemma PmfIs(n: nat, p: real, j: nat, c: real, x: real, y: real)
    requires j <= n && c == Choose(n, j) as real && x == Pow(p, j) && y == Pow(1.0 - p, n - j)
    ensures Pmf(n, p, j) == Weighted(c, x, y)
  {
  }

  function Weighted(c: real, x: real, y: real): real { c * (x * y) }

  lemma PowStep(x: real, n: nat)
    requires n >= 1
    ensures Pow(x, n) == x * Pow(x, n - 1)
  {
  }

  lemma TrialSplit(a: real, b: real, c: real, p: real, q: real, x: real, px: real, y: real, qy: real,
                   more: real, same: real, less: real)
    requires c == a + b && px == p * x && qy == q * y
    requires more == Weighted(c, px, qy) && same == Weighted(b, px, y) && less == Weighted(a, x, qy)
    ensures more == q * same + p * less
  {
  }

  lemma PmfLast(n: nat, p: real)
    ensures Pmf(n + 1, p, n + 1) == p * Pmf(n, p, n)
  {
    ChooseAll(n);
    ChooseAll(n + 1);
    assert Pow(p, n + 1) == p * Pow(p, n);
  }

  lemma {:induction false} CdfTrial(n: nat, p: real, k: nat)
    requires k <= n
    ensures Cdf(n + 1, p, k) == (1.0 - p) * Cdf(n, p, k) + (if k == 0 then 0.0 else p * Cdf(n, p, k - 1))
  {
    hide Pmf;
    PmfTrial(n, p, k);
    if k > 0 { CdfTrial(n, p, k - 1); }
  }

  lemma CdfStep(n: nat, p: real, k: nat)
    requires k <= n
    ensures Cdf(n, p, k) == (if k == 0 then 0.0 else Cdf(n, p, k - 1)) + Pmf(n, p, k)
  {
  }

  // The binomial theorem: the probabilities sum to one.
  lemma {:induction false} CdfTotal(n: nat, p: real)
    ensures Cdf(n, p, n) == 1.0
  {
    if n > 0 {
      CdfTotal(n - 1, p);
      TotalTrial(n, p);
    } else {
      assert Pmf(0, p, 0) == 1.0;
    }
  }

  lemma TotalTrial(n: nat, p: real)
    requires n > 0
    ensures Cdf(n, p, n) == Cdf(n - 1, p, n - 1)
  {
    hide Pmf, Cdf;
    CdfTrial(n - 1, p, n - 1);
    PmfLast(n - 1, p);
    CdfStep(n, p, n);
    CdfStep(n - 1, p, n - 1);
    if n == 1 {
      TotalKept(p, 0.0, 0.0, Pmf(0, p, 0), Cdf(0, p, 0), Cdf(1, p, 1));
    } else {
      var before := Cdf(n - 1, p, n - 2);
      TotalKept(p, before, p * before, Pmf(n - 1, p, n - 1), Cdf(n - 1, p, n - 1), Cdf(n, p, n));
    }
  }

  lemma TotalKept(p: real, before: real, scaled: real, last: real, all: real, total: real)
    requires before + last == all && scaled == p * before
    requires total == ((1.0 - p) * all + scaled) + p * last
    ensures total == all
  {
  }

  lemma PmfReflect(n: nat, p: real, j: nat)
    requires j <= n
    ensures Pmf(n, p, j) == Pmf(n, 1.0 - p, n - j)
  {
    ChooseSymmetric(n, j);
    assert 1.0 - (1.0 - p) == p;
    assert n - (n - j) == j;
  }

  // The upper tail is the lower tail of the failures.
  lemma {:induction false} CdfComplement(n: nat, p: real, k: nat)
    requires k < n
    ensures Cdf(n, p, k) + Cdf(n, 1.0 - p, n - k - 1) == 1.0
    decreases n - k
  {
    hide Pmf;
    PmfReflect(n, p, k + 1);
    if k == n - 1 {
      CdfTotal(n, p);
    } else {
      CdfComplement(n, p, k + 1);
    }
  }

  lemma {:induction false} CdfBounds(n: nat, p: real, k: nat)
    requires k <= n && 0.0 <= p <= 1.0
    ensures 0.0 <= Cdf(n, p, k) <= 1.0
    ensures Cdf(n, p, k) >= Pmf(n, p, k)
  {
    hide Pmf;
    CdfNonnegative(n, p, k);
    PmfSign(n, p, k);
    if k > 0 { CdfNonnegative(n, p, k - 1); }
    if k == n {
      CdfTotal(n, p);
    } else {
      CdfComplement(n, p, k);
      CdfNonnegative(n, 1.0 - p, n - k - 1);
    }
  }

  lemma {:induction false} CdfNonnegative(n: nat, p: real, k: nat)
    requires k <= n && 0.0 <= p <= 1.0
    ensures Cdf(n, p, k) >= 0.0
  {
    hide Pmf;
    PmfSign(n, p, k);
    if k > 0 { CdfNonnegative(n, p, k - 1); }
  }

  // Consecutive masses, without division.
  lemma PmfRatio(n: nat, p: real, j: nat)
    requires 1 <= j <= n
    ensures Pmf(n, p, j) * (j as real * (1.0 - p)) == Pmf(n, p, j - 1) * ((n - j + 1) as real * p)
  {
    hide Pmf, Pow, Choose;
    ChooseRatio(n, j);
    var a, b, x, y := Choose(n, j) as real, Choose(n, j - 1) as real, Pow(p, j - 1), Pow(1.0 - p, n - j);
    PmfPowers(n, p, j);
    CastProduct(Choose(n, j), j);
    CastProduct(Choose(n, j - 1), n - j + 1);
    RatioSplit(Pmf(n, p, j), Pmf(n, p, j - 1), a, b, j as real, (n - j + 1) as real, p, 1.0 - p, x, y);
  }

  lemma PmfPowers(n: nat, p: real, j: nat)
    requires 1 <= j <= n
    ensures var x, y := Pow(p, j - 1), Pow(1.0 - p, n - j);
            && Pmf(n, p, j) == Choose(n, j) as real * ((p * x) * y)
            && Pmf(n, p, j - 1) == Choose(n, j - 1) as real * (x * ((1.0 - p) * y))
  {
    hide Choose;
    assert Pow(1.0 - p, n - (j - 1)) == (1.0 - p) * Pow(1.0 - p, n - j);
  }

  lemma CastProduct(a: int, b: int)
    ensures (a * b) as real == a as real * b as real
  {
  }

  lemma RatioSplit(u: real, v: real, a: real, b: real, j: real, m: real, p: real, q: real, x: real, y: real)
    requires a * j == b * m && u == a * ((p * x) * y) && v == b * (x * (q * y))
    ensures u * (j * q) == v * (m * p)
  {
  }

  // Below the mean the masses grow.
  lemma PmfGrows(n: nat, p: real, j: nat)
    requires 1 <= j <= n && 0.0 < p < 1.0 && (j as real) < n as real * p
    ensures Pmf(n, p, j - 1) < Pmf(n, p, j)
  {
    hide Pmf;
    PmfRatio(n, p, j);
    PmfSign(n, p, j);
    RatioBelow(Pmf(n, p, j), Pmf(n, p, j - 1), j as real, n as real, (n - j + 1) as real, p);
  }

  lemma RatioBelow(x: real, y: real, j: real, n: real, m: real, p: real)
    requires 0.0 < p < 1.0 && j < n * p && j >= 1.0 && m == n - j + 1.0 && x > 0.0
    requires x * (j * (1.0 - p)) == y * (m * p)
    ensures y < x
  {
    GapPositive(j, n, p);
    Smaller(x, y, j * (1.0 - p), m * p);
  }

  lemma GapPositive(j: real, n: real, p: real)
    requires 0.0 < p < 1.0 && j < n * p && j >= 1.0
    ensures 0.0 < j * (1.0 - p) < (n - j + 1.0) * p
  {
  }

  lemma Smaller(x: real, y: real, up: real, down: real)
    requires x > 0.0 && 0.0 < up < down && x * up == y * down
    ensures y < x
  {
  }

  lemma {:induction false} CdfBelow(n: nat, p: real, j: nat)
    requires j <= n && 0.0 < p < 1.0 && (j as real) < n as real * p
    ensures Cdf(n, p, j) <= (j + 1) as real * Pmf(n, p, j)
  {
    hide Pmf;
    PmfSign(n, p, j);
    if j > 0 {
      CdfBelow(n, p, j - 1);
      PmfGrows(n, p, j);
      var x, y := Pmf(n, p, j - 1), Pmf(n, p, j);
      assert j as real * x <= j as real * y;
      assert (j + 1) as real * y == j as real * y + y;
    }
  }
}
