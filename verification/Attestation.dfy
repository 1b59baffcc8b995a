/**
 * Which records still stand: drift since a record's commit, the replay waivers that excuse it,
 * and the verdict over all records.
 */
module Attestation {
  import opened Prelude
  import opened Surfaces

  const GATE_PREFIX := "gate."

  datatype Record = Record(id: string, sha: string, fields: Fields, passed: Option<int>)

  datatype Waiver = Waiver(
    id: string, from_: string, to: string, paths: seq<string>, recordlessGates: bool, gateLedger: string)

  /**
   * What the engine reads from version control: the commit a name stands for, whether a path's
   * content in the tree differs from a commit's, the paths it compares, and ledger rows.
   */
  datatype Repo = Repo(
    resolve: string -> Option<string>, differs: (string, string) -> bool, files: seq<string>,
    gatePass: (string, string, string) -> Option<int>)

  datatype Env = Env(surface: Surface, repo: Repo, waivers: seq<Waiver>)

  function Changed(repo: Repo, commit: string, m: nat): seq<string>
    requires m <= |repo.files|
  {
    if m == 0 then [] else
      Changed(repo, commit, m - 1) + (if repo.differs(commit, repo.files[m - 1]) then [repo.files[m - 1]] else [])
  }

  function ChangedPaths(repo: Repo, commit: string): (r: seq<string>)
    ensures forall p :: p in r <==> p in repo.files && repo.differs(commit, p)
  {
    ChangedMeans(repo, commit, |repo.files|);
    Changed(repo, commit, |repo.files|)
  }

  lemma ChangedMeans(repo: Repo, commit: string, m: nat)
    requires m <= |repo.files|
    ensures forall p :: p in Changed(repo, commit, m) <==> p in repo.files[..m] && repo.differs(commit, p)
    ensures m == |repo.files| ==> repo.files[..m] == repo.files
  {
  }

  /* ---- Scope of a waiver ---- */

  function Relevant(surface: Surface, facets: set<string>, paths: seq<string>): set<string> {
    set p | p in paths && FacetOrCore(surface, p) in facets
  }

  predicate WaiverApplies(env: Env, waiver: Waiver, commit: string, facets: set<string>, drifted: seq<string>) {
    && env.repo.resolve(waiver.from_) == Some(commit)
    && var end := env.repo.resolve(waiver.to);
       && end.Some?
       && (forall p :: p in Relevant(env.surface, facets, drifted) ==> p in waiver.paths)
       && Relevant(env.surface, facets, ChangedPaths(env.repo, end.value)) == {}
  }

  predicate Eligible(env: Env, record: Record, commit: string, waiver: Waiver) {
    StartsWith(record.id, GATE_PREFIX) ==>
      && waiver.recordlessGates
      && record.passed.Some? && record.passed.value > 0
      && var ledger := env.repo.resolve(waiver.gateLedger);
         env.repo.gatePass(if ledger.Some? then ledger.value else "", record.id, commit) == record.passed
  }

  /* ---- What a record's state is ---- */

  // A path the record depends on whose content differs from the commit's.
  ghost predicate Drifts(env: Env, record: Record, commit: string, path: string) {
    path in env.repo.files && env.repo.differs(commit, path) && Depends(env.surface, record.fields, path)
  }

  // A waiver from the record's commit that names every drifted path, with no drift after its end.
  ghost predicate Excuses(env: Env, record: Record, commit: string, waiver: Waiver) {
    && Eligible(env, record, commit, waiver)
    && env.repo.resolve(waiver.from_) == Some(commit)
    && env.repo.resolve(waiver.to).Some?
    && (forall path :: Drifts(env, record, commit, path) ==> path in waiver.paths)
    && (forall path :: !Drifts(env, record, env.repo.resolve(waiver.to).value, path))
  }

  ghost function FirstExcuse(env: Env, record: Record, commit: string, m: nat): Option<string>
    requires m <= |env.waivers|
    decreases |env.waivers| - m
  {
    if m == |env.waivers| then None
    else if Excuses(env, record, commit, env.waivers[m]) then Some(env.waivers[m].id)
    else FirstExcuse(env, record, commit, m + 1)
  }

  datatype Status = Standing | Replayed(waiver: string) | Owed | Unverifiable

  function Commit(env: Env, sha: string): Option<string> { if sha == "" then None else env.repo.resolve(sha) }

  ghost function StatusOf(env: Env, record: Record): Status {
    match Commit(env, record.sha)
    case None => Unverifiable
    case Some(commit) =>
      if forall path :: !Drifts(env, record, commit, path) then Standing else
        match FirstExcuse(env, record, commit, 0)
        case None => Owed
        case Some(id) => Replayed(id)
  }

  ghost predicate UniqueIds(records: seq<Record>) {
    forall i, j :: 0 <= i < j < |records| ==> records[i].id != records[j].id
  }

  ghost function Filter(records: seq<Record>, keep: Record -> bool): seq<Record> {
    if records == [] then [] else
      var last := records[|records| - 1];
      Filter(records[..|records| - 1], keep) + (if keep(last) then [last] else [])
  }

  /* ---- Assessing one commit ---- */

  datatype Assessment = Assessment(
    sha: string, commit: Option<string>, records: seq<Record>, facets: map<string, set<string>>,
    drifted: map<string, seq<string>>, stale: seq<Record>, waived: map<string, string>)

  ghost predicate FacetsKept(surface: Surface, records: seq<Record>, facets: map<string, set<string>>) {
    forall i :: 0 <= i < |records| ==>
      && records[i].id in facets
      && (forall f :: f in facets[records[i].id] <==> Carries(surface, records[i].fields, f))
  }

  method DeriveFacets(surface: Surface, records: seq<Record>) returns (facets: map<string, set<string>>)
    ensures forall i :: 0 <= i < |records| ==> records[i].id in facets
    ensures UniqueIds(records) ==> FacetsKept(surface, records, facets)
  {
    hide Carries;
    facets := map[];
    for m := 0 to |records|
      invariant forall i :: 0 <= i < m ==> records[i].id in facets
      invariant UniqueIds(records) ==> FacetsKept(surface, records[..m], facets)
    {
      var own := RecordFacets(surface, records[m].fields);
      facets := facets[records[m].id := own];
      assert records[..m + 1] == records[..m] + [records[m]];
    }
    assert records[..|records|] == records;
  }

  // The paths that lie in a facet, in their order.
  ghost function Lying(surface: Surface, paths: seq<string>, facet: string): seq<string> {
    if paths == [] then [] else
      var last := paths[|paths| - 1];
      Lying(surface, paths[..|paths| - 1], facet) + (if FacetOrCore(surface, last) == facet then [last] else [])
  }

  ghost predicate DriftKept(surface: Surface, paths: seq<string>, drifted: map<string, seq<string>>) {
    && (forall p :: p in paths ==> FacetOrCore(surface, p) in drifted)
    && (forall f :: f in drifted ==> exists p :: p in paths && FacetOrCore(surface, p) == f)
    && (forall f :: f in drifted ==> drifted[f] == Lying(surface, paths, f))
  }

  method DeriveDrift(surface: Surface, paths: seq<string>) returns (drifted: map<string, seq<string>>)
    ensures DriftKept(surface, paths, drifted)
  {
    hide FacetOrCore, Lying;
    drifted := map[];
    assert forall f :: Lying(surface, paths[..0], f) == [] by { NoneLying(surface); }
    for m := 0 to |paths|
      invariant forall i :: 0 <= i < m ==> FacetOrCore(surface, paths[i]) in drifted
      invariant forall f :: f in drifted ==> exists p :: p in paths && FacetOrCore(surface, p) == f
      invariant forall f :: Lying(surface, paths[..m], f) == if f in drifted then drifted[f] else []
    {
      LyingNext(surface, paths, m);
      var f := FacetOrCore(surface, paths[m]);
      drifted := drifted[f := (if f in drifted then drifted[f] else []) + [paths[m]]];
    }
    assert paths[..|paths|] == paths;
  }

  lemma NoneLying(surface: Surface)
    ensures forall f :: Lying(surface, [], f) == []
  {
  }

  lemma LyingNext(surface: Surface, paths: seq<string>, m: nat)
    requires m < |paths|
    ensures forall f :: Lying(surface, paths[..m + 1], f) ==
                        Lying(surface, paths[..m], f) + (if FacetOrCore(surface, paths[m]) == f then [paths[m]] else [])
  {
    hide FacetOrCore;
    assert paths[..m + 1][..m] == paths[..m];
  }

  // A facet set as the engine derives it, against the paths the record depends on.
  ghost predicate Derived(surface: Surface, record: Record, facets: set<string>) {
    forall f :: f in facets <==> Carries(surface, record.fields, f)
  }

  lemma RelevantMeans(env: Env, record: Record, commit: string, facets: set<string>)
    requires Derived(env.surface, record, facets)
    ensures forall p :: p in Relevant(env.surface, facets, ChangedPaths(env.repo, commit)) <==> Drifts(env, record, commit, p)
  {
  }

  lemma DriftedMeans(env: Env, record: Record, commit: string, facets: set<string>, drifted: map<string, seq<string>>)
    requires Derived(env.surface, record, facets)
    requires DriftKept(env.surface, ChangedPaths(env.repo, commit), drifted)
    ensures facets * drifted.Keys == {} <==> forall path :: !Drifts(env, record, commit, path)
  {
    hide Carries, FacetOrCore;
    if f :| f in facets * drifted.Keys {
      var p :| p in ChangedPaths(env.repo, commit) && FacetOrCore(env.surface, p) == f;
      assert Drifts(env, record, commit, p);
    }
    if p :| Drifts(env, record, commit, p) {
      assert p in ChangedPaths(env.repo, commit);
      assert FacetOrCore(env.surface, p) in facets * drifted.Keys;
    }
  }

  lemma AppliesMeans(env: Env, record: Record, commit: string, facets: set<string>, waiver: Waiver)
    requires Derived(env.surface, record, facets)
    ensures Eligible(env, record, commit, waiver)
            && WaiverApplies(env, waiver, commit, facets, ChangedPaths(env.repo, commit))
            <==> Excuses(env, record, commit, waiver)
  {
    hide Eligible, Relevant, Drifts, Derived;
    RelevantMeans(env, record, commit, facets);
    var end := env.repo.resolve(waiver.to);
    if end.Some? {
      RelevantMeans(env, record, end.value, facets);
      var none := Relevant(env.surface, facets, ChangedPaths(env.repo, end.value));
      assert none == {} <==> forall p :: p !in none;
    }
  }

  // The first eligible waiver that applies.
  method FindWaiver(env: Env, record: Record, commit: string, facets: set<string>, paths: seq<string>)
    returns (r: Option<string>)
    requires paths == ChangedPaths(env.repo, commit)
    ensures Derived(env.surface, record, facets) ==> r == FirstExcuse(env, record, commit, 0)
  {
    hide Eligible, WaiverApplies, Derived, Excuses;
    r := None;
    for m := 0 to |env.waivers|
      invariant Derived(env.surface, record, facets) ==>
                  FirstExcuse(env, record, commit, 0) == FirstExcuse(env, record, commit, m)
    {
      if Derived(env.surface, record, facets) {
        AppliesMeans(env, record, commit, facets, env.waivers[m]);
      }
      if Eligible(env, record, commit, env.waivers[m]) && WaiverApplies(env, env.waivers[m], commit, facets, paths) {
        return Some(env.waivers[m].id);
      }
    }
  }

  ghost predicate WaivedKept(env: Env, records: seq<Record>, waived: map<string, string>) {
    && (forall i :: 0 <= i < |records| ==>
          (records[i].id in waived <==> StatusOf(env, records[i]).Replayed?))
    && (forall i :: 0 <= i < |records| && records[i].id in waived ==>
          StatusOf(env, records[i]) == Replayed(waived[records[i].id]))
    && (forall k :: k in waived ==> exists i :: 0 <= i < |records| && records[i].id == k)
  }

  ghost function Is(env: Env, status: Status): Record -> bool { (r: Record) => StatusOf(env, r) == status }

  ghost predicate Assessed(env: Env, a: Assessment) {
    && a.commit == Commit(env, a.sha)
    && (a.commit.None? ==> a.stale == [] && a.waived == map[])
    && (UniqueIds(a.records) ==>
          a.stale == Filter(a.records, Is(env, Owed)) && WaivedKept(env, a.records, a.waived))
  }

  method AssessCommit(env: Env, sha: string, records: seq<Record>) returns (a: Assessment)
    requires forall i :: 0 <= i < |records| ==> records[i].sha == sha
    ensures a.sha == sha && a.records == records && Assessed(env, a)
  {
    hide Drifts, Excuses, FirstExcuse, Carries, FacetOrCore, StatusOf, DriftKept, UniqueIds;
    var commit := Commit(env, sha);
    var facets := DeriveFacets(env.surface, records);
    if commit.None? {
      Unresolved(env, sha, records);
      return Assessment(sha, commit, records, facets, map[], [], map[]);
    }
    var paths := ChangedPaths(env.repo, commit.value);
    var drifted := DeriveDrift(env.surface, paths);
    var stale: seq<Record>, waived: map<string, string> := [], map[];
    NothingAssessed(env, records);
    for m := 0 to |records|
      invariant UniqueIds(records) ==> stale == Filter(records[..m], Is(env, Owed)) && WaivedKept(env, records[..m], waived)
    {
      var record := records[m];
      var own := facets[record.id];
      ghost var before := waived;
      var status := AssessRecord(env, record, commit.value, own, drifted, paths);
      if status == Owed {
        stale := stale + [record];
      } else if status.Replayed? {
        waived := waived[record.id := status.waiver];
      }
      if UniqueIds(records) {
        assert status == StatusOf(env, record);
        FilterStep(env, records, m);
        WaivedStep(env, records, m, before, waived);
      }
    }
    assert records[..|records|] == records;
    a := Assessment(sha, commit, records, facets, drifted, stale, waived);
  }

  lemma NothingAssessed(env: Env, records: seq<Record>)
    ensures Filter(records[..0], Is(env, Owed)) == [] && WaivedKept(env, records[..0], map[])
  {
  }

  lemma FilterStep(env: Env, records: seq<Record>, m: nat)
    requires m < |records|
    ensures Filter(records[..m + 1], Is(env, Owed)) ==
            Filter(records[..m], Is(env, Owed)) + (if StatusOf(env, records[m]) == Owed then [records[m]] else [])
  {
    hide StatusOf;
    assert records[..m + 1][..m] == records[..m];
  }

  lemma WaivedStep(env: Env, records: seq<Record>, m: nat, was: map<string, string>, now: map<string, string>)
    requires m < |records| && UniqueIds(records) && WaivedKept(env, records[..m], was)
    requires now == match StatusOf(env, records[m])
                    case Replayed(id) => was[records[m].id := id]
                    case _ => was
    ensures WaivedKept(env, records[..m + 1], now)
  {
    hide StatusOf;
    var next := records[..m + 1];
    assert forall i :: 0 <= i < m ==> records[..m][i] == next[i] && next[i].id != records[m].id;
    assert records[m].id !in was;
    forall k | k in now ensures exists i :: 0 <= i < |next| && next[i].id == k {
      if k == records[m].id {
        assert next[m].id == k;
      } else {
        var i :| 0 <= i < m && records[..m][i].id == k;
        assert next[i].id == k;
      }
    }
  }

  // One record of a commit that the clone holds.
  method AssessRecord(env: Env, record: Record, commit: string, facets: set<string>, drifted: map<string, seq<string>>,
                      paths: seq<string>)
    returns (status: Status)
    requires paths == ChangedPaths(env.repo, commit) && DriftKept(env.surface, paths, drifted)
    ensures Derived(env.surface, record, facets) && Commit(env, record.sha) == Some(commit) ==>
              status == StatusOf(env, record)
    ensures !status.Unverifiable?
  {
    hide Drifts, Excuses, FirstExcuse, Derived, DriftKept;
    if Derived(env.surface, record, facets) {
      DriftedMeans(env, record, commit, facets, drifted);
    }
    if facets * drifted.Keys == {} {
      return Standing;
    }
    var waiver := FindWaiver(env, record, commit, facets, paths);
    status := if waiver.Some? then Replayed(waiver.value) else Owed;
  }

  lemma {:induction false} Unresolved(env: Env, sha: string, records: seq<Record>)
    requires Commit(env, sha).None? && forall i :: 0 <= i < |records| ==> records[i].sha == sha
    ensures Filter(records, Is(env, Owed)) == [] && WaivedKept(env, records, map[])
  {
    hide Drifts, FirstExcuse;
    if records != [] {
      Unresolved(env, sha, records[..|records| - 1]);
    }
  }
}
