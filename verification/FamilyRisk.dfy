/**
 * The risk the decision protocol spends: the chance that a compatible family is
 * called incompatible, for one decision and for a whole family over all its looks.
 */
module FamilyRisk {
  import opened Binomial
  import opened Decision
  import opened FiniteSums
  import Tails

  /* ---- The probability of an event about one count ---- */

  // The probability of a count at most `k` that `hit` accepts.
  function Prob(n: nat, p: real, hit: nat -> bool, k: nat): real
    requires k <= n
  {
    (if k == 0 then 0.0 else Prob(n, p, hit, k - 1)) + (if hit(k) then Pmf(n, p, k) else 0.0)
  }

  lemma {:induction false} ProbBelowCdf(n: nat, p: real, hit: nat -> bool, k: nat)
    requires k <= n && 0.0 <= p <= 1.0
    ensures 0.0 <= Prob(n, p, hit, k) <= Cdf(n, p, k)
  {
    hide Pmf;
    PmfSign(n, p, k);
    if k > 0 { ProbBelowCdf(n, p, hit, k - 1); }
  }

  // A p-value from the lower tail is at most `x` with probability at most `x`.
  lemma {:induction false} LowerUniform(n: nat, p: real, hit: nat -> bool, x: real, k: nat)
    requires k <= n && 0.0 <= p <= 1.0 && x >= 0.0
    requires forall j: nat :: j <= n && hit(j) ==> Cdf(n, p, j) <= x
    ensures Prob(n, p, hit, k) <= x
  {
    hide Pmf, Cdf;
    if hit(k) {
      ProbBelowCdf(n, p, hit, k);
    } else if k > 0 {
      LowerUniform(n, p, hit, x, k - 1);
    }
  }

  function ProbUnder(n: nat, p: real, hit: nat -> bool, k: nat): real
    requires k <= n + 1
  {
    if k == 0 then 0.0 else Prob(n, p, hit, k - 1)
  }

  lemma {:induction false} RestBelow(n: nat, p: real, hit: nat -> bool, k: nat)
    requires k <= n && 0.0 <= p <= 1.0
    ensures Prob(n, p, hit, n) - ProbUnder(n, p, hit, k) <= Cdf(n, 1.0 - p, n - k)
    decreases n - k
  {
    hide Pmf, Cdf;
    PmfSign(n, p, k);
    CdfStep(n, 1.0 - p, n - k);
    PmfReflect(n, p, k);
    if k < n { RestBelow(n, p, hit, k + 1); }
  }

  // So is one from the upper tail, written as the lower tail of the failures.
  lemma {:induction false} UpperUniform(n: nat, p: real, hit: nat -> bool, x: real, k: nat)
    requires k <= n && 0.0 <= p <= 1.0 && x >= 0.0
    requires forall j: nat :: j <= n && hit(j) ==> Cdf(n, 1.0 - p, n - j) <= x
    ensures Prob(n, p, hit, n) - ProbUnder(n, p, hit, k) <= x
    decreases n - k
  {
    hide Pmf, Cdf;
    if hit(k) {
      RestBelow(n, p, hit, k);
    } else if k < n {
      UpperUniform(n, p, hit, x, k + 1);
    }
  }

  lemma {:induction false} ProbUnion(n: nat, p: real, both: nat -> bool, a: nat -> bool, b: nat -> bool, k: nat)
    requires k <= n && 0.0 <= p <= 1.0
    requires forall j: nat :: j <= n && both(j) ==> a(j) || b(j)
    ensures Prob(n, p, both, k) <= Prob(n, p, a, k) + Prob(n, p, b, k)
  {
    hide Pmf;
    PmfSign(n, p, k);
    if k > 0 { ProbUnion(n, p, both, a, b, k - 1); }
  }

  /* ---- One decision ---- */

  ghost predicate SmallP(n: nat, p: real, lowerOnly: bool, eps: real, x: real, k: nat)
    requires 0.0 <= p <= 1.0
  {
    1 <= n && k <= n && PValue(n, k, p, lowerOnly, eps).value <= x
  }

  // A value of at most `x` from the loop is a true tail of at most `x * (1 + n * eps)`.
  lemma SmallLower(n: nat, k: nat, p: real, eps: real, x: real)
    requires k <= n && 0.0 <= p <= 1.0 && eps >= 0.0 && x >= 0.0
    requires Lower(n, k, p, eps) <= x
    ensures Cdf(n, p, k) <= x * (1.0 + n as real * eps)
  {
    hide Lower, Cdf;
    LowerClose(n, k, p, eps);
    assert n as real * eps >= 0.0;
    var slack := 1.0 + n as real * eps;
    if k as real < n as real * p {
      ScaleRight(Lower(n, k, p, eps), x, slack);
    } else {
      ScaleRight(1.0, slack, x);
    }
  }

  lemma ScaleRight(x: real, y: real, c: real)
    requires x <= y && c >= 0.0
    ensures x * c <= y * c
  {
  }

  lemma PValueSplit(n: nat, k: nat, p: real, lowerOnly: bool, eps: real, x: real)
    requires 1 <= n && k <= n && 0.0 <= p <= 1.0 && 0.0 <= x < 1.0
    requires PValue(n, k, p, lowerOnly, eps).value <= x
    ensures lowerOnly ==> Lower(n, k, p, eps) <= x
    ensures !lowerOnly ==> Lower(n, k, p, eps) <= x / 2.0 || (k > 0 && Lower(n, n - k, 1.0 - p, eps) <= x / 2.0)
  {
  }

  lemma SmallUpper(n: nat, k: nat, p: real, eps: real, x: real)
    requires k <= n && 0.0 <= p <= 1.0 && eps >= 0.0 && x >= 0.0
    requires Lower(n, n - k, 1.0 - p, eps) <= x
    ensures Cdf(n, 1.0 - p, n - k) <= x * (1.0 + n as real * eps)
  {
    hide Lower, Cdf;
    SmallLower(n, n - k, 1.0 - p, eps, x);
  }

  // Super-uniformity of the p-value, one-sided and two-sided, with or without the break.
  lemma PValueUniform(n: nat, p: real, lowerOnly: bool, eps: real, x: real, hit: nat -> bool)
    requires 1 <= n && 0.0 <= p <= 1.0 && eps >= 0.0 && 0.0 <= x < 1.0
    requires forall k: nat :: k <= n && hit(k) ==> SmallP(n, p, lowerOnly, eps, x, k)
    ensures Prob(n, p, hit, n) <= x * (1.0 + n as real * eps)
  {
    hide Lower, Cdf, Prob, PValue;
    var y := x * (1.0 + n as real * eps);
    assert n as real * eps >= 0.0;
    ScaleRight(0.0, x, 1.0 + n as real * eps);
    if lowerOnly {
      forall k: nat | k <= n && hit(k) ensures Cdf(n, p, k) <= y {
        PValueSplit(n, k, p, lowerOnly, eps, x);
        SmallLower(n, k, p, eps, x);
      }
      LowerUniform(n, p, hit, y, n);
    } else {
      TwoSidedUniform(n, p, eps, x, hit);
    }
  }

  lemma TwoSidedUniform(n: nat, p: real, eps: real, x: real, hit: nat -> bool)
    requires 1 <= n && 0.0 <= p <= 1.0 && eps >= 0.0 && 0.0 <= x < 1.0
    requires forall k: nat :: k <= n && hit(k) ==> SmallP(n, p, false, eps, x, k)
    ensures Prob(n, p, hit, n) <= x * (1.0 + n as real * eps)
  {
    hide Lower, Cdf, Prob, PValue;
    var z := x / 2.0;
    var half := z * (1.0 + n as real * eps);
    assert n as real * eps >= 0.0;
    ScaleRight(0.0, z, 1.0 + n as real * eps);
    var low: nat -> bool := (k: nat) => k <= n && Cdf(n, p, k) <= half;
    var high: nat -> bool := (k: nat) => k <= n && Cdf(n, 1.0 - p, n - k) <= half;
    forall k: nat | k <= n && hit(k) ensures low(k) || high(k) {
      PValueSplit(n, k, p, false, eps, x);
      if Lower(n, k, p, eps) <= z {
        SmallLower(n, k, p, eps, z);
      } else {
        SmallUpper(n, k, p, eps, z);
      }
    }
    ProbUnion(n, p, hit, low, high, n);
    LowerUniform(n, p, low, half, n);
    UpperUniform(n, p, high, half, 0);
    assert x * (1.0 + n as real * eps) == half + half;
  }

  /* ---- The budget ---- */

  ghost predicate Incompatible(config: Config, planned: int, n: nat, p: real, lowerOnly: bool, eps: real, k: nat) {
    var r := Evaluate(config, planned, n, k, p, lowerOnly, eps);
    r.Ok? && !r.value.compatible
  }

  lemma CutoffBounds(weight: real, cells: int)
    requires 0.0 <= weight <= 0.5 && cells >= 1
    ensures 0.0 <= Cutoff(weight, cells) < 1.0
  {
  }

  function LookWeight(look: nat): real
    requires look < 3
  {
    LOOKS[look].weight
  }

  function Slack(eps: real): real { 1.0 + 20000.0 * eps }

  // One decision says incompatible with probability at most its cutoff (times the slack of the break).
  lemma DecisionRisk(
    config: Config, look: nat, n: nat, p: real, lowerOnly: bool, eps: real, hit: nat -> bool)
    requires look < 3 && 1 <= n <= LOOKS[look].planned && 0.0 <= p <= 1.0 && eps >= 0.0
    requires config.cells >= 1
    requires forall k: nat :: k <= n && hit(k) ==> Incompatible(config, LOOKS[look].planned, n, p, lowerOnly, eps, k)
    ensures Prob(n, p, hit, n) <= Cutoff(LookWeight(look), config.cells) * Slack(eps)
  {
    hide Prob, PValue, Cutoff;
    var x := Cutoff(LookWeight(look), config.cells);
    CutoffBounds(LookWeight(look), config.cells);
    forall k: nat | k <= n && hit(k) ensures SmallP(n, p, lowerOnly, eps, x, k) {
      IncompatibleSmall(config, look, n, p, lowerOnly, eps, k);
    }
    PValueUniform(n, p, lowerOnly, eps, x, hit);
    assert n as real * eps <= 20000.0 * eps by { ScaleRight(n as real, 20000.0, eps); }
    ScaleRight(1.0 + n as real * eps, Slack(eps), x);
  }

  lemma IncompatibleSmall(config: Config, look: nat, n: nat, p: real, lowerOnly: bool, eps: real, k: nat)
    requires look < 3 && 1 <= n <= LOOKS[look].planned && k <= n && 0.0 <= p <= 1.0
    requires Incompatible(config, LOOKS[look].planned, n, p, lowerOnly, eps, k)
    requires config.cells >= 1
    ensures SmallP(n, p, lowerOnly, eps, Cutoff(LookWeight(look), config.cells), k)
  {
  }

  // The cutoffs of every cell at all three looks spend the family's risk exactly.
  lemma BudgetSpent(config: Config)
    requires ValidateConfig(config).Ok?
    ensures config.cells >= 1
    ensures config.cells as real
            * (Cutoff(LookWeight(0), config.cells) + Cutoff(LookWeight(1), config.cells) + Cutoff(LookWeight(2), config.cells))
            == ALPHA
  {
  }

  /* ---- A finite outcome space ---- */

  // The weight of the outcomes below `m` that satisfy `event`.
  function Weight(w: seq<real>, event: nat -> bool, m: nat): real
    requires m <= |w|
  {
    if m == 0 then 0.0 else Weight(w, event, m - 1) + (if event(m - 1) then w[m - 1] else 0.0)
  }

  ghost predicate Nonnegative(w: seq<real>) { forall i :: 0 <= i < |w| ==> w[i] >= 0.0 }

  lemma {:induction false} WeightUnion(w: seq<real>, both: nat -> bool, a: nat -> bool, b: nat -> bool, m: nat)
    requires m <= |w| && Nonnegative(w)
    requires forall i: nat :: i < |w| && both(i) ==> a(i) || b(i)
    ensures Weight(w, both, m) <= Weight(w, a, m) + Weight(w, b, m)
  {
    if m > 0 { WeightUnion(w, both, a, b, m - 1); }
  }

  lemma {:induction false} WeightSplits(w: seq<real>, all: nat -> bool, a: nat -> bool, b: nat -> bool, m: nat)
    requires m <= |w|
    requires forall i: nat :: i < |w| ==> (all(i) <==> a(i) || b(i)) && !(a(i) && b(i))
    ensures Weight(w, all, m) == Weight(w, a, m) + Weight(w, b, m)
  {
    if m > 0 { WeightSplits(w, all, a, b, m - 1); }
  }

  lemma {:induction false} WeightNone(w: seq<real>, event: nat -> bool, m: nat)
    requires m <= |w|
    requires forall i: nat :: i < |w| ==> !event(i)
    ensures Weight(w, event, m) == 0.0
  {
    if m > 0 { WeightNone(w, event, m - 1); }
  }

  // The count of outcome `i` is `count(i)`, distributed as a binomial with `n` trials.
  ghost predicate BinomialCount(w: seq<real>, count: nat -> nat, n: nat, p: real) {
    && (forall i: nat :: i < |w| ==> count(i) <= n)
    && (forall k: nat :: k <= n ==> Weight(w, Is(count, k), |w|) == Pmf(n, p, k))
  }

  function Is(count: nat -> nat, k: nat): nat -> bool { (i: nat) => count(i) == k }

  function UpTo(count: nat -> nat, hit: nat -> bool, k: nat): nat -> bool {
    (i: nat) => count(i) <= k && hit(count(i))
  }

  lemma WeightSame(w: seq<real>, a: nat -> bool, b: nat -> bool, m: nat)
    requires m <= |w| && forall i: nat :: i < |w| ==> (a(i) <==> b(i))
    ensures Weight(w, a, m) == Weight(w, b, m)
  {
  }

  lemma {:induction false} Marginal(w: seq<real>, count: nat -> nat, n: nat, p: real, hit: nat -> bool, k: nat)
    requires k <= n && BinomialCount(w, count, n, p)
    ensures Weight(w, UpTo(count, hit, k), |w|) == Prob(n, p, hit, k)
  {
    hide Pmf, Weight;
    if k == 0 {
      if hit(0) {
        WeightSame(w, UpTo(count, hit, 0), Is(count, 0), |w|);
      } else {
        WeightNone(w, UpTo(count, hit, 0), |w|);
      }
    } else {
      Marginal(w, count, n, p, hit, k - 1);
      if hit(k) {
        WeightSplits(w, UpTo(count, hit, k), UpTo(count, hit, k - 1), Is(count, k), |w|);
      } else {
        WeightSame(w, UpTo(count, hit, k), UpTo(count, hit, k - 1), |w|);
      }
    }
  }

  /* ---- A whole family ---- */

  // What one cell does at one look: how many replicates it scores, against which nominal
  // probability, and how many each outcome of the space covers.
  datatype Trial = Trial(scored: nat, nominal: real, lowerOnly: bool, covered: nat -> nat)

  // A family's plan: a trial for every cell and look.
  type Plan = (nat, nat) -> Trial

  ghost predicate Null(w: seq<real>, plan: Plan, cells: nat) {
    forall c: nat, l: nat :: c < cells && l < 3 ==> NullTrial(w, plan(c, l), l)
  }

  // Whether a trial's scored count and nominal probability are ones `Evaluate` decides on.
  predicate Scorable(t: Trial, look: nat)
    requires look < 3
  {
    1 <= t.scored <= LOOKS[look].planned && 0.0 <= t.nominal <= 1.0
  }

  ghost predicate NullTrial(w: seq<real>, t: Trial, look: nat)
    requires look < 3
  {
    Scorable(t, look) ==> BinomialCount(w, t.covered, t.scored, t.nominal)
  }

  ghost function Rejected(config: Config, t: Trial, look: nat, eps: real): nat -> bool
    requires look < 3
  {
    (i: nat) => Incompatible(config, LOOKS[look].planned, t.scored, t.nominal, t.lowerOnly, eps, t.covered(i))
  }

  ghost predicate CellRejects(config: Config, plan: Plan, eps: real, c: nat, i: nat) {
    || Rejected(config, plan(c, 0), 0, eps)(i)
    || Rejected(config, plan(c, 1), 1, eps)(i)
    || Rejected(config, plan(c, 2), 2, eps)(i)
  }

  ghost predicate AnyRejects(config: Config, plan: Plan, eps: real, cells: nat, i: nat) {
    exists c: nat :: c < cells && CellRejects(config, plan, eps, c, i)
  }

  ghost function CellEvent(config: Config, plan: Plan, eps: real, c: nat): nat -> bool {
    (i: nat) => CellRejects(config, plan, eps, c, i)
  }

  ghost function FamilyEvent(config: Config, plan: Plan, eps: real, cells: nat): nat -> bool {
    (i: nat) => AnyRejects(config, plan, eps, cells, i)
  }

  lemma TrialRisk(w: seq<real>, config: Config, t: Trial, look: nat, eps: real)
    requires look < 3 && NullTrial(w, t, look) && config.cells >= 1 && eps >= 0.0
    ensures Weight(w, Rejected(config, t, look, eps), |w|) <= Cutoff(LookWeight(look), config.cells) * Slack(eps)
  {
    hide Weight, Prob, Incompatible, Pmf, Cutoff, Slack;
    if !Scorable(t, look) {
      Undecided(w, config, t, look, eps);
      return;
    }
    var hit: nat -> bool := (k: nat) => Incompatible(config, LOOKS[look].planned, t.scored, t.nominal, t.lowerOnly, eps, k);
    Marginal(w, t.covered, t.scored, t.nominal, hit, t.scored);
    WeightSame(w, Rejected(config, t, look, eps), UpTo(t.covered, hit, t.scored), |w|);
    DecisionRisk(config, look, t.scored, t.nominal, t.lowerOnly, eps, hit);
  }

  // No decision is made, so none is incompatible.
  lemma Undecided(w: seq<real>, config: Config, t: Trial, look: nat, eps: real)
    requires look < 3 && !Scorable(t, look) && config.cells >= 1 && eps >= 0.0
    ensures Weight(w, Rejected(config, t, look, eps), |w|) <= Cutoff(LookWeight(look), config.cells) * Slack(eps)
  {
    hide Weight, PValue, Cutoff, Evaluate, ValidateConfig;
    forall i: nat | i < |w| ensures !Rejected(config, t, look, eps)(i) {
      EvaluateMeans(config, LOOKS[look].planned, t.scored, t.covered(i), t.nominal, t.lowerOnly, eps);
    }
    WeightNone(w, Rejected(config, t, look, eps), |w|);
    CutoffBounds(LookWeight(look), config.cells);
    ScaleRight(0.0, Cutoff(LookWeight(look), config.cells), Slack(eps));
  }

  function CellBudget(cells: int): real
    requires cells > 0
  {
    Cutoff(LookWeight(0), cells) + Cutoff(LookWeight(1), cells) + Cutoff(LookWeight(2), cells)
  }

  lemma CellRisk(w: seq<real>, config: Config, plan: Plan, eps: real, cells: nat, c: nat)
    requires Null(w, plan, cells) && Nonnegative(w) && c < cells && config.cells >= 1 && eps >= 0.0
    ensures Weight(w, CellEvent(config, plan, eps, c), |w|) <= CellBudget(config.cells) * Slack(eps)
  {
    hide Weight, Incompatible, NullTrial, Slack, Cutoff, LookWeight, Rejected;
    var first, second, third :=
      Rejected(config, plan(c, 0), 0, eps), Rejected(config, plan(c, 1), 1, eps), Rejected(config, plan(c, 2), 2, eps);
    assert NullTrial(w, plan(c, 0), 0) && NullTrial(w, plan(c, 1), 1) && NullTrial(w, plan(c, 2), 2);
    TrialRisk(w, config, plan(c, 0), 0, eps);
    TrialRisk(w, config, plan(c, 1), 1, eps);
    TrialRisk(w, config, plan(c, 2), 2, eps);
    var later: nat -> bool := (i: nat) => second(i) || third(i);
    WeightUnion(w, later, second, third, |w|);
    WeightUnion(w, CellEvent(config, plan, eps, c), first, later, |w|);
    var x, y, z := Cutoff(LookWeight(0), config.cells), Cutoff(LookWeight(1), config.cells), Cutoff(LookWeight(2), config.cells);
    assert (x + y + z) * Slack(eps) == x * Slack(eps) + y * Slack(eps) + z * Slack(eps);
  }

  lemma LastCell(config: Config, plan: Plan, eps: real, cells: nat)
    requires cells > 0
    ensures forall i: nat :: FamilyEvent(config, plan, eps, cells)(i) ==>
              FamilyEvent(config, plan, eps, cells - 1)(i) || CellEvent(config, plan, eps, cells - 1)(i)
  {
    hide CellRejects;
    forall i: nat | FamilyEvent(config, plan, eps, cells)(i)
      ensures FamilyEvent(config, plan, eps, cells - 1)(i) || CellEvent(config, plan, eps, cells - 1)(i)
    {
      var c: nat :| c < cells && CellRejects(config, plan, eps, c, i);
      if c < cells - 1 { assert AnyRejects(config, plan, eps, cells - 1, i); }
    }
  }

  lemma NoCells(w: seq<real>, config: Config, plan: Plan, eps: real)
    requires config.cells >= 1
    ensures Weight(w, FamilyEvent(config, plan, eps, 0), |w|) == 0.0 == Times(0, CellBudget(config.cells) * Slack(eps))
  {
    hide Weight;
    WeightNone(w, FamilyEvent(config, plan, eps, 0), |w|);
  }

  lemma {:induction false} CellsRisk(w: seq<real>, config: Config, plan: Plan, eps: real, cells: nat)
    requires Null(w, plan, cells) && Nonnegative(w) && config.cells >= 1 && eps >= 0.0
    ensures Weight(w, FamilyEvent(config, plan, eps, cells), |w|) <= Times(cells, CellBudget(config.cells) * Slack(eps))
  {
    hide Times, Weight, CellBudget, Slack, AnyRejects, CellRejects, NullTrial, FamilyEvent, CellEvent;
    var each := CellBudget(config.cells) * Slack(eps);
    if cells == 0 {
      NoCells(w, config, plan, eps);
    } else {
      CellsRisk(w, config, plan, eps, cells - 1);
      CellRisk(w, config, plan, eps, cells, cells - 1);
      LastCell(config, plan, eps, cells);
      WeightUnion(w, FamilyEvent(config, plan, eps, cells),
                  FamilyEvent(config, plan, eps, cells - 1), CellEvent(config, plan, eps, cells - 1), |w|);
      TimesMore(cells - 1, each);
    }
  }

  /**
   * Family-wise error control, under any dependence between the cells: when every count is
   * binomial at its nominal probability, some cell is called incompatible at some look with
   * probability at most the family's risk (times the slack of the early break).
   */
  lemma FamilyWiseError(w: seq<real>, config: Config, plan: Plan, eps: real)
    requires ValidateConfig(config).Ok? && Nonnegative(w) && Null(w, plan, config.cells) && eps >= 0.0
    ensures Weight(w, FamilyEvent(config, plan, eps, config.cells), |w|) <= ALPHA * Slack(eps)
    ensures eps == 0.0 ==> Weight(w, FamilyEvent(config, plan, eps, config.cells), |w|) <= ALPHA
    ensures eps == Tails.EPS ==> Weight(w, FamilyEvent(config, plan, eps, config.cells), |w|) <= 0.0500000000003
  {
    hide Weight, FamilyEvent, Null, ValidateConfig, Nonnegative, Cutoff, LookWeight;
    BudgetSpent(config);
    CellsRisk(w, config, plan, eps, config.cells);
    var c, b, s := config.cells as real, CellBudget(config.cells), Slack(eps);
    assert c * (b * s) == (c * b) * s;
  }
}
