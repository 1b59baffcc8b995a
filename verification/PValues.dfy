/** The p-value and the decision in terms of probabilities alone. */
module PValues {
  import opened Prelude
  import opened Binomial
  import opened Decision

  // The probabilities of at most and of at least `k` successes, summed term by term.
  function AtMost(n: nat, p: real, k: nat): real
    requires k <= n
  {
    Pmf(n, p, k) + (if k == 0 then 0.0 else AtMost(n, p, k - 1))
  }

  function AtLeast(n: nat, p: real, k: nat): real
    requires k <= n
    decreases n - k
  {
    Pmf(n, p, k) + (if k == n then 0.0 else AtLeast(n, p, k + 1))
  }

  lemma {:induction false} AtMostIsCdf(n: nat, p: real, k: nat)
    requires k <= n
    ensures AtMost(n, p, k) == Cdf(n, p, k)
  {
    hide Pmf;
    if k > 0 { AtMostIsCdf(n, p, k - 1); }
  }

  // By reflection: at least `k` successes are at most `n - k` failures.
  lemma {:induction false} AtLeastIsCdf(n: nat, p: real, k: nat)
    requires k <= n
    ensures AtLeast(n, p, k) == Cdf(n, 1.0 - p, n - k)
    decreases n - k
  {
    hide Pmf;
    PmfReflect(n, p, k);
    if k < n { AtLeastIsCdf(n, p, k + 1); }
  }

  function Smaller(x: real, y: real): real { if x <= y then x else y }

  // Twice the smaller of the two tails, capped at one; or the lower tail alone.
  function TrueP(n: nat, k: nat, p: real, lowerOnly: bool): real
    requires k <= n
  {
    if lowerOnly then AtMost(n, p, k)
    else Smaller(1.0, 2.0 * Smaller(AtMost(n, p, k), AtLeast(n, p, k)))
  }

  predicate Countable(scored: int, covered: int, nominal: real) {
    1 <= scored && 0 <= covered && covered <= scored && 0.0 <= nominal && nominal <= 1.0
  }

  lemma UpperExact(n: nat, k: nat, p: real)
    requires k <= n && 0.0 <= p <= 1.0
    ensures Upper(n, k, p, 0.0) == AtLeast(n, p, k)
  {
    hide Cdf, Lower, AtLeast;
    AtLeastIsCdf(n, p, k);
    if k == 0 {
      CdfTotal(n, 1.0 - p);
    } else {
      LowerExact(n, n - k, 1.0 - p);
    }
  }

  /** Without the early break the p-value is that of the exact test, and the call raises exactly
      for counts or a nominal probability out of range. */
  lemma PValueExact(scored: int, covered: int, nominal: real, lowerOnly: bool)
    ensures PValue(scored, covered, nominal, lowerOnly, 0.0).Ok? <==> Countable(scored, covered, nominal)
    ensures Countable(scored, covered, nominal) ==>
              PValue(scored, covered, nominal, lowerOnly, 0.0) == Ok(TrueP(scored, covered, nominal, lowerOnly))
  {
    hide Cdf, Lower, Upper, AtMost, AtLeast;
    if Countable(scored, covered, nominal) {
      LowerExact(scored, covered, nominal);
      AtMostIsCdf(scored, nominal, covered);
      UpperExact(scored, covered, nominal);
    }
  }

  /* ---- With the early break ---- */

  // `value` is the tail `exact` to a relative error below and an absolute one above.
  predicate Near(value: real, exact: real, slack: real) {
    value <= exact + slack && exact <= value * (1.0 + slack)
  }

  lemma LowerNear(n: nat, k: nat, p: real, eps: real)
    requires k <= n && 0.0 <= p <= 1.0 && eps >= 0.0
    ensures 0.0 <= Lower(n, k, p, eps) <= 1.0 && Near(Lower(n, k, p, eps), Cdf(n, p, k), n as real * eps)
    ensures k as real < n as real * p ==> Lower(n, k, p, eps) <= Cdf(n, p, k)
  {
    hide Cdf, Lower;
    LowerClose(n, k, p, eps);
    SlackSign(n, eps);
    GrowBy(Lower(n, k, p, eps), n as real * eps);
  }

  lemma SlackSign(n: nat, eps: real)
    requires eps >= 0.0
    ensures n as real * eps >= 0.0
  {
  }

  lemma GrowBy(x: real, slack: real)
    requires x >= 0.0 && slack >= 0.0
    ensures x <= x * (1.0 + slack)
  {
    assert x * (1.0 + slack) == x + x * slack;
  }

  lemma UpperNear(n: nat, k: nat, p: real, eps: real)
    requires k <= n && 0.0 <= p <= 1.0 && eps >= 0.0
    ensures 0.0 <= Upper(n, k, p, eps) <= 1.0 && Near(Upper(n, k, p, eps), AtLeast(n, p, k), n as real * eps)
    ensures k as real > n as real * p ==> Upper(n, k, p, eps) <= AtLeast(n, p, k)
  {
    hide Cdf, Lower, AtLeast;
    AtLeastIsCdf(n, p, k);
    SlackSign(n, eps);
    if k == 0 {
      CdfTotal(n, 1.0 - p);
    } else {
      LowerNear(n, n - k, 1.0 - p, eps);
      assert n as real * (1.0 - p) == n as real - n as real * p;
    }
  }

  lemma NearSmaller(x: real, y: real, s: real, t: real, slack: real)
    requires Near(x, s, slack) && Near(y, t, slack) && slack >= 0.0 && x >= 0.0 && y >= 0.0
    ensures Near(Smaller(1.0, 2.0 * Smaller(x, y)), Smaller(1.0, 2.0 * Smaller(s, t)), 2.0 * slack)
  {
    var v, e := Smaller(x, y), Smaller(s, t);
    GrowBy(v, slack);
    assert e <= v * (1.0 + slack) && v <= e + slack;
    DoubleNear(v, e, slack);
  }

  lemma DoubleNear(v: real, e: real, slack: real)
    requires e <= v * (1.0 + slack) && v <= e + slack && v >= 0.0 && slack >= 0.0
    ensures Near(Smaller(1.0, 2.0 * v), Smaller(1.0, 2.0 * e), 2.0 * slack)
  {
    assert v * (1.0 + slack) == v + v * slack;
    assert v * slack >= 0.0;
    var w := Smaller(1.0, 2.0 * v);
    GrowBy(w, 2.0 * slack);
    assert w * (1.0 + 2.0 * slack) == w + 2.0 * (w * slack);
    if 2.0 * v <= 1.0 { assert w == 2.0 * v; assert w * slack == 2.0 * (v * slack); }
  }

  /** With the break the p-value is off by at most twice the scored count times the threshold. */
  lemma PValueNear(n: nat, k: nat, p: real, lowerOnly: bool, eps: real)
    requires Countable(n, k, p) && eps >= 0.0
    ensures PValue(n, k, p, lowerOnly, eps).Ok?
    ensures Near(PValue(n, k, p, lowerOnly, eps).value, TrueP(n, k, p, lowerOnly), 2.0 * (n as real * eps))
  {
    hide Cdf, Lower, Upper, AtMost, AtLeast, Near;
    AtMostIsCdf(n, p, k);
    LowerNear(n, k, p, eps);
    UpperNear(n, k, p, eps);
    SlackSign(n, eps);
    var lower, upper := Lower(n, k, p, eps), Upper(n, k, p, eps);
    MinIsSmaller(lower, upper);
    MinIsSmaller(1.0, 2.0 * Smaller(lower, upper));
    if lowerOnly {
      NearMore(lower, AtMost(n, p, k), n as real * eps);
    } else {
      NearSmaller(lower, upper, AtMost(n, p, k), AtLeast(n, p, k), n as real * eps);
    }
  }

  lemma MinIsSmaller(x: real, y: real)
    ensures Min(x, y) == Smaller(x, y)
  {
  }

  lemma NearMore(x: real, s: real, slack: real)
    requires Near(x, s, slack) && x >= 0.0 && slack >= 0.0
    ensures Near(x, s, 2.0 * slack)
  {
    assert x * slack >= 0.0;
    assert x * (1.0 + 2.0 * slack) == x * (1.0 + slack) + x * slack;
  }

  // The break never raises the p-value above the tail on the count's own side of the mean.
  lemma PValueBelow(n: nat, k: nat, p: real, eps: real)
    requires Countable(n, k, p) && eps >= 0.0
    ensures k as real < n as real * p ==>
              && PValue(n, k, p, true, eps).value <= AtMost(n, p, k)
              && PValue(n, k, p, false, eps).value <= 2.0 * AtMost(n, p, k)
    ensures k as real > n as real * p ==> PValue(n, k, p, false, eps).value <= 2.0 * AtLeast(n, p, k)
  {
    hide Cdf, Lower, Upper, AtMost, AtLeast;
    AtMostIsCdf(n, p, k);
    LowerNear(n, k, p, eps);
    UpperNear(n, k, p, eps);
  }

  /* ---- The decision ---- */

  // A look's part of the family's risk, for one cell.
  function Share(planned: int, cells: int): real
    requires cells > 0
  {
    0.05 * (if planned == 400 then 0.5 else 0.25) / cells as real
  }

  predicate Decidable(config: Config, planned: int, scored: int, covered: int, nominal: real) {
    && ValidateConfig(config).Ok? && planned in {400, 2000, 20000}
    && Countable(scored, covered, nominal) && scored <= planned
  }

  /** In exact arithmetic a decision is made exactly in range, and it is incompatible exactly when
      the exact p-value is within the look's share. */
  lemma EvaluateExact(config: Config, planned: int, scored: int, covered: int, nominal: real, lowerOnly: bool)
    ensures var r := Evaluate(config, planned, scored, covered, nominal, lowerOnly, 0.0);
            && (r.Ok? <==> Decidable(config, planned, scored, covered, nominal))
            && (r.Ok? ==>
                  && config.cells > 0
                  && r.value == Verdict(config, planned, if planned == 400 then 0.5 else 0.25, scored, covered, lowerOnly,
                                        TrueP(scored, covered, nominal, lowerOnly),
                                        TrueP(scored, covered, nominal, lowerOnly) > Share(planned, config.cells)))
  {
    hide PValue, TrueP, ValidateConfig;
    EvaluateMeans(config, planned, scored, covered, nominal, lowerOnly, 0.0);
    PValueExact(scored, covered, nominal, lowerOnly);
    if Evaluate(config, planned, scored, covered, nominal, lowerOnly, 0.0).Ok? {
      EvaluateParts(config, planned, scored, covered, nominal, lowerOnly, 0.0);
    }
  }

  lemma EvaluateParts(config: Config, planned: int, scored: int, covered: int, nominal: real, lowerOnly: bool, eps: real)
    requires Evaluate(config, planned, scored, covered, nominal, lowerOnly, eps).Ok?
    ensures var v := Evaluate(config, planned, scored, covered, nominal, lowerOnly, eps).value;
            && v.config == config && v.planned == planned && v.scored == scored && v.covered == covered
            && v.lowerOnly == lowerOnly && PValue(scored, covered, nominal, lowerOnly, eps) == Ok(v.pValue)
  {
    hide PValue, ValidateConfig;
  }

  /** With the break: whatever is far enough within the share is rejected, and whatever is rejected
      is within it up to the slack. */
  lemma EvaluateNear(config: Config, planned: int, n: nat, k: nat, p: real, lowerOnly: bool, eps: real)
    requires Decidable(config, planned, n, k, p) && eps >= 0.0
    ensures var r := Evaluate(config, planned, n, k, p, lowerOnly, eps);
            var exact, slack := TrueP(n, k, p, lowerOnly), 2.0 * (n as real * eps);
            && r.Ok? && config.cells > 0
            && (exact + slack <= Share(planned, config.cells) ==> !r.value.compatible)
            && (!r.value.compatible ==> exact <= Share(planned, config.cells) * (1.0 + slack))
  {
    hide PValue, TrueP, ValidateConfig;
    EvaluateMeans(config, planned, n, k, p, lowerOnly, eps);
    EvaluateParts(config, planned, n, k, p, lowerOnly, eps);
    PValueNear(n, k, p, lowerOnly, eps);
    SlackSign(n, eps);
    var r := Evaluate(config, planned, n, k, p, lowerOnly, eps).value;
    if !r.compatible {
      ScaleUp(r.pValue, Share(planned, config.cells), 1.0 + 2.0 * (n as real * eps));
    }
  }

  lemma ScaleUp(x: real, y: real, c: real)
    requires x <= y && c >= 0.0
    ensures x * c <= y * c
  {
  }

  /** Below the mean, or above it when both sides count, a tail within the share is rejected, break
      or no break. */
  lemma TailRejected(config: Config, planned: int, n: nat, k: nat, p: real, eps: real)
    requires Decidable(config, planned, n, k, p) && eps >= 0.0
    ensures var one, two := Evaluate(config, planned, n, k, p, true, eps), Evaluate(config, planned, n, k, p, false, eps);
            && one.Ok? && two.Ok? && config.cells > 0
            && var share := Share(planned, config.cells);
               && (k as real < n as real * p && AtMost(n, p, k) <= share ==> !one.value.compatible)
               && (k as real < n as real * p && 2.0 * AtMost(n, p, k) <= share ==> !two.value.compatible)
               && (k as real > n as real * p && 2.0 * AtLeast(n, p, k) <= share ==> !two.value.compatible)
  {
    hide PValue, AtMost, AtLeast, ValidateConfig;
    EvaluateMeans(config, planned, n, k, p, true, eps);
    EvaluateParts(config, planned, n, k, p, true, eps);
    EvaluateMeans(config, planned, n, k, p, false, eps);
    EvaluateParts(config, planned, n, k, p, false, eps);
    PValueBelow(n, k, p, eps);
  }

  /* ---- Configurations ---- */

  // A frozen configuration, field by field.
  predicate Frozen(config: Config) {
    && (|| config.domain == "release_2_4_1_validation_v1"
        || config.domain == "release_2_4_1_weighted_hc3_validation_v1"
        || config.domain == "release_2_4_1_pag_trial_shift_validation_v1"
        || config.domain == "release_2_4_1_pag_confidence_set_validation_v1")
    && config.id == "suite_coverage_fwer.v1" && config.alpha == 0.05
    && |config.familyDigest| == 64
    && (forall i :: 0 <= i < 64 ==>
          var c := config.familyDigest[i]; '0' <= c <= '9' || 'a' <= c <= 'f' || 'A' <= c <= 'F')
    && 1 <= config.groups && config.gridPoints == 3 && config.cap == 256
    && config.cells == config.groups * 768 && config.cells <= 4294967295
    && config.looks == [Look(400, 0.5), Look(2000, 0.25), Look(20000, 0.25)]
  }

  /** The validated configurations are exactly the frozen ones, and validation changes nothing. */
  lemma ConfigMeans(config: Config)
    ensures ValidateConfig(config).Ok? <==> Frozen(config)
    ensures ValidateConfig(config).Ok? ==> ValidateConfig(config).value == config
  {
    DomainsAre(config.domain);
    if |config.familyDigest| == 64 { DigestIs(config.familyDigest); }
    hide HexDigit;
  }

  lemma DomainsAre(domain: string)
    ensures domain in DOMAINS <==>
            || domain == "release_2_4_1_validation_v1"
            || domain == "release_2_4_1_weighted_hc3_validation_v1"
            || domain == "release_2_4_1_pag_trial_shift_validation_v1"
            || domain == "release_2_4_1_pag_confidence_set_validation_v1"
  {
  }

  lemma DigestIs(digest: string)
    requires |digest| == 64
    ensures (exists i :: 0 <= i < 64 && !HexDigit(digest[i])) <==>
            !forall i :: 0 <= i < 64 ==> var c := digest[i]; '0' <= c <= '9' || 'a' <= c <= 'f' || 'A' <= c <= 'F'
  {
  }

  /** A roster's configuration: its own domain and digest, one group for each label. */
  lemma ManifestMeans(domain: string, groups: seq<string>, digest: string)
    ensures var r := ConfigForManifest(domain, groups, digest);
            r.Ok? ==>
              && r.value.domain == domain && r.value.familyDigest == digest && r.value.groups == |groups| >= 1
              && Frozen(r.value)
  {
    hide ValidateConfig, Frozen;
    if groups != [] {
      ConfigMeans(Config(domain, ID, digest, ALPHA, |groups|, GRID_POINTS, |groups| * GRID_POINTS * CELL_CAP, CELL_CAP, LOOKS));
    }
  }
}
