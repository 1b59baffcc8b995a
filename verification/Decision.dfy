/**
 * The exact-binomial compatibility decision: both branches of the lower tail, the two-sided
 * p-value and the spending cutoff.  `eps` is the tail loop's break threshold.
 */
module Decision {
  import opened Prelude
  import opened Binomial
  import opened Tails

  const ALPHA: real := 0.05
  const GRID_POINTS := 3
  const CELL_CAP := 256
  const ID := "suite_coverage_fwer.v1"
  const DOMAINS := {
    "release_2_4_1_validation_v1",
    "release_2_4_1_weighted_hc3_validation_v1",
    "release_2_4_1_pag_trial_shift_validation_v1",
    "release_2_4_1_pag_confidence_set_validation_v1"
  }

  datatype Look = Look(planned: int, weight: real)

  const LOOKS: seq<Look> := [Look(400, 0.5), Look(2000, 0.25), Look(20000, 0.25)]

  datatype Config = Config(
    domain: string, id: string, familyDigest: string, alpha: real,
    groups: int, gridPoints: int, cells: int, cap: int, looks: seq<Look>)

  datatype Verdict = Verdict(
    config: Config, planned: int, weight: real, scored: int, covered: int,
    lowerOnly: bool, pValue: real, compatible: bool)

  datatype Error =
    | UnknownDomain | UnknownProtocol | BadDigest | BadBudget | BadLooks
    | NoRoster | BadCounts | UnregisteredLook | DenominatorExceedsBudget

  /* ---- Probabilities ---- */

  function Max(x: real, y: real): real { if x < y then y else x }

  function Min(x: real, y: real): real { if y < x then y else x }

  function Lower(n: nat, k: nat, p: real, eps: real): real
    requires k <= n && 0.0 <= p <= 1.0
  {
    if k == n || p == 0.0 then 1.0
    else if p == 1.0 then 0.0
    else if k as real < n as real * p then Min(1.0, Direct(n, k, p, eps))
    else Min(1.0, Max(0.0, 1.0 - Direct(n, n - k - 1, 1.0 - p, eps)))
  }

  function Upper(n: nat, k: nat, p: real, eps: real): real
    requires k <= n && 0.0 <= p <= 1.0
  {
    if k == 0 then 1.0 else Lower(n, n - k, 1.0 - p, eps)
  }

  predicate ValidCounts(scored: int, covered: int, nominal: real) {
    scored >= 1 && 0 <= covered <= scored && 0.0 <= nominal <= 1.0
  }

  function PValue(scored: int, covered: int, nominal: real, lowerOnly: bool, eps: real): Result<real, Error> {
    if !ValidCounts(scored, covered, nominal) then Err(BadCounts) else
      var lower := Lower(scored, covered, nominal, eps);
      if lowerOnly then Ok(lower) else
        Ok(Min(1.0, 2.0 * Min(lower, Upper(scored, covered, nominal, eps))))
  }

  /* ---- Configurations and decisions ---- */

  predicate HexDigit(c: char) { '0' <= c <= '9' || 'a' <= c <= 'f' || 'A' <= c <= 'F' }

  function ValidateConfig(config: Config): Result<Config, Error> {
    if config.domain !in DOMAINS then Err(UnknownDomain)
    else if config.id != ID || config.alpha != ALPHA then Err(UnknownProtocol)
    else if |config.familyDigest| != 64 || exists i :: 0 <= i < 64 && !HexDigit(config.familyDigest[i]) then
      Err(BadDigest)
    else if || config.groups < 1
            || config.gridPoints != GRID_POINTS
            || config.cap != CELL_CAP
            || config.cells != config.groups * GRID_POINTS * CELL_CAP
            || config.cells > 0xFFFF_FFFF then Err(BadBudget)
    else if config.looks != LOOKS then Err(BadLooks)
    else Ok(config)
  }

  function ConfigForManifest(domain: string, groups: seq<string>, digest: string): Result<Config, Error> {
    if |groups| == 0 then Err(NoRoster) else
      ValidateConfig(Config(
        domain, ID, digest, ALPHA, |groups|, GRID_POINTS, |groups| * GRID_POINTS * CELL_CAP, CELL_CAP, LOOKS))
  }

  function FindLook(looks: seq<Look>, planned: int): Option<Look> {
    if looks == [] then None
    else if looks[0].planned == planned then Some(looks[0])
    else FindLook(looks[1..], planned)
  }

  function Cutoff(weight: real, cells: int): real
    requires cells > 0
  {
    ALPHA * weight / cells as real
  }

  function Evaluate(
    config: Config, planned: int, scored: int, covered: int, nominal: real, lowerOnly: bool, eps: real)
    : Result<Verdict, Error>
  {
    match ValidateConfig(config)
    case Err(e) => Err(e)
    case Ok(_) =>
      match FindLook(LOOKS, planned)
      case None => Err(UnregisteredLook)
      case Some(look) =>
        if scored > planned then Err(DenominatorExceedsBudget) else
          match PValue(scored, covered, nominal, lowerOnly, eps)
          case Err(e) => Err(e)
          case Ok(p) =>
            Ok(Verdict(config, planned, look.weight, scored, covered, lowerOnly, p,
                       p > Cutoff(look.weight, config.cells)))
  }

  /* ---- Both branches ---- */

  lemma {:induction false} NeverSucceeds(n: nat, k: nat)
    requires k <= n
    ensures Cdf(n, 0.0, k) == 1.0
  {
    if k == 0 {
      PowOne(n);
    } else {
      NeverSucceeds(n, k - 1);
      assert Pow(0.0, k) == 0.0;
    }
  }

  lemma {:induction false} PowOne(n: nat)
    ensures Pow(1.0, n) == 1.0
  {
    if n > 0 { PowOne(n - 1); }
  }

  lemma AlwaysSucceeds(n: nat, k: nat)
    requires k < n
    ensures Cdf(n, 1.0, k) == 0.0
  {
    CdfComplement(n, 1.0, k);
    NeverSucceeds(n, n - k - 1);
  }

  // Without the early break, both branches are the cumulative probability.
  lemma LowerExact(n: nat, k: nat, p: real)
    requires k <= n && 0.0 <= p <= 1.0
    ensures Lower(n, k, p, 0.0) == Cdf(n, p, k)
  {
    hide Cdf, Direct;
    CdfBounds(n, p, k);
    if k == n {
      CdfTotal(n, p);
    } else if p == 0.0 {
      NeverSucceeds(n, k);
    } else if p == 1.0 {
      AlwaysSucceeds(n, k);
    } else if k as real < n as real * p {
      DirectExact(n, k, p);
    } else {
      CdfComplement(n, p, k);
      DirectExact(n, n - k - 1, 1.0 - p);
    }
  }

  // The complement branch calls the loop below its mean too.
  lemma ComplementBelowMean(n: nat, k: nat, p: real)
    requires k < n && k as real >= n as real * p
    ensures (n - k - 1) as real < n as real * (1.0 - p)
  {
    assert n as real * (1.0 - p) == n as real - n as real * p;
  }

  // With the break: a relative error below the mean, an absolute one above it.
  lemma LowerClose(n: nat, k: nat, p: real, eps: real)
    requires k <= n && 0.0 <= p <= 1.0 && eps >= 0.0
    ensures var r := Lower(n, k, p, eps);
            && 0.0 <= r <= 1.0
            && (k as real < n as real * p ==> r <= Cdf(n, p, k) <= r * (1.0 + n as real * eps))
            && (k as real >= n as real * p ==> Cdf(n, p, k) <= r <= Cdf(n, p, k) + n as real * eps)
  {
    hide Cdf, Direct;
    CdfBounds(n, p, k);
    assert n as real * eps >= 0.0;
    if k == n || p == 0.0 || p == 1.0 {
      LowerExact(n, k, p);
      Widen(Cdf(n, p, k), 0.0, n as real, eps);
    } else if k as real < n as real * p {
      DirectClose(n, k, p, eps);
      Widen(Direct(n, k, p, eps), (if k == 0 then 0 else k - 1) as real, n as real, eps);
    } else {
      ComplementBelowMean(n, k, p);
      ComplementClose(n, k, p, eps);
    }
  }

  lemma ComplementClose(n: nat, k: nat, p: real, eps: real)
    requires k < n && 0.0 < p < 1.0 && eps >= 0.0
    requires (n - k - 1) as real < n as real * (1.0 - p)
    ensures var d := Direct(n, n - k - 1, 1.0 - p, eps);
            && 0.0 <= d <= 1.0
            && Cdf(n, p, k) <= 1.0 - d <= Cdf(n, p, k) + n as real * eps
  {
    hide Cdf, Direct;
    var m, q := n - k - 1, 1.0 - p;
    var d := Direct(n, m, q, eps);
    DirectClose(n, m, q, eps);
    CdfBounds(n, q, m);
    CdfComplement(n, p, k);
    var left := if m == 0 then 0 else m - 1;
    Widen(d, left as real, n as real, eps);
    assert Cdf(n, q, m) <= d * (1.0 + n as real * eps);
    AbsoluteGap(d, n as real * eps, Cdf(n, q, m));
  }

  lemma AbsoluteGap(d: real, e: real, c: real)
    requires 0.0 < d <= c <= 1.0 && e >= 0.0 && c <= d * (1.0 + e)
    ensures c - d <= e
  {
    assert d * (1.0 + e) == d + d * e;
    Scale(e, d, 1.0);
  }

  /* ---- The look and the cutoff ---- */

  lemma LookFound(planned: int)
    ensures FindLook(LOOKS, planned) ==
            (if planned == 400 then Some(LOOKS[0]) else if planned == 2000 then Some(LOOKS[1])
             else if planned == 20000 then Some(LOOKS[2]) else None)
  {
    var two, one := [Look(2000, 0.25), Look(20000, 0.25)], [Look(20000, 0.25)];
    assert LOOKS[1..] == two && two[1..] == one && one[1..] == [];
    assert FindLook(one, planned) == if planned == 20000 then Some(one[0]) else None;
    assert FindLook(two, planned) == if planned == 2000 then Some(two[0]) else FindLook(one, planned);
    assert FindLook(LOOKS, planned) == if planned == 400 then Some(LOOKS[0]) else FindLook(two, planned);
  }

  // What a decision was made on, and exactly when the call raises.
  lemma EvaluateMeans(config: Config, planned: int, scored: int, covered: int, nominal: real, lowerOnly: bool, eps: real)
    ensures var r := Evaluate(config, planned, scored, covered, nominal, lowerOnly, eps);
            && (r.Ok? <==>
                  && ValidateConfig(config).Ok?
                  && planned in {400, 2000, 20000}
                  && 1 <= scored <= planned && 0 <= covered <= scored && 0.0 <= nominal <= 1.0)
            && (r.Ok? ==>
                  && config.cells == 768 * config.groups && 768 <= config.cells <= 0xFFFF_FFFF
                  && r.value.weight == (if planned == 400 then 0.5 else 0.25)
                  && (r.value.compatible <==> r.value.pValue > 0.05 * r.value.weight / config.cells as real))
  {
    hide Lower, Upper;
    LookFound(planned);
  }

  // A roster yields a configuration exactly when its cells fit the 32-bit budget.
  lemma ManifestConfigured(domain: string, groups: seq<string>, digest: string)
    requires domain in DOMAINS && |digest| == 64 && forall i :: 0 <= i < 64 ==> HexDigit(digest[i])
    ensures ConfigForManifest(domain, groups, digest).Ok? <==> 1 <= |groups| <= 5592405
    ensures ConfigForManifest(domain, groups, digest).Ok? ==>
              ConfigForManifest(domain, groups, digest).value.cells == 768 * |groups|
  {
  }
}
