/** Which facets a record depends on and whether it stands, over raw paths, fields and waivers. */
module FacetFields {
  import opened Prelude
  import opened Surfaces
  import opened Attestation
  import Globs
  import LastCut
  import Verdicts

  /* ---- Paths ---- */

  // The line is the path itself, or a directory above it.
  ghost predicate Above(line: string, path: string) {
    line == path || (line != "" && line[|line| - 1] == '/' && exists rest: string :: path == line + rest)
  }

  lemma CoversMeans(line: string, path: string)
    ensures Covers(line, path) <==> Above(line, path)
  {
    if |line| <= |path| && path[..|line|] == line { assert path == line + path[|line|..]; }
    if rest: string :| path == line + rest { assert path[..|line|] == line; }
  }

  // Line `i` covers the path, and none that does is longer or as long and earlier.
  ghost predicate Longest(surface: Surface, path: string, i: nat) {
    && i < |surface.entries| && Above(surface.entries[i].path, path)
    && forall j: nat :: j < |surface.entries| && Above(surface.entries[j].path, path) ==>
         |surface.entries[j].path| < |surface.entries[i].path|
         || (|surface.entries[j].path| == |surface.entries[i].path| && i <= j)
  }

  ghost predicate LiesIn(surface: Surface, path: string, facet: string) {
    exists i: nat :: i < |surface.entries| && Longest(surface, path, i) && surface.entries[i].facet == facet
  }

  ghost predicate Uncovered(surface: Surface, path: string) {
    forall i :: 0 <= i < |surface.entries| ==> !Above(surface.entries[i].path, path)
  }

  lemma WinsMeans(surface: Surface, path: string, i: nat)
    requires i < |surface.entries|
    ensures Wins(surface.entries, i, |surface.entries|, path) <==> Longest(surface, path, i)
  {
    hide Covers, Above;
    forall j | 0 <= j < |surface.entries|
      ensures Covers(surface.entries[j].path, path) <==> Above(surface.entries[j].path, path)
    {
      CoversMeans(surface.entries[j].path, path);
    }
  }

  /** A path's facet is that of the longest line above it. */
  lemma FacetMeans(surface: Surface, path: string, facet: string)
    ensures FacetOf(surface, path) == Some(facet) <==> LiesIn(surface, path, facet)
    ensures FacetOf(surface, path) == None <==> Uncovered(surface, path)
  {
    hide Covers, Above, Best, Wins, Longest;
    var entries := surface.entries;
    BestCovers(entries, |entries|, path);
    forall i: nat | i < |entries| ensures Wins(entries, i, |entries|, path) <==> Longest(surface, path, i) {
      WinsMeans(surface, path, i);
    }
    forall i | 0 <= i < |entries| ensures Covers(entries[i].path, path) <==> Above(entries[i].path, path) {
      CoversMeans(entries[i].path, path);
    }
    if i: nat :| i < |entries| && Longest(surface, path, i) && entries[i].facet == facet {
      assert Best(entries, |entries|, path) == Some(entries[i]);
    }
    if FacetOf(surface, path) == Some(facet) {
      var line := Best(entries, |entries|, path).value;
      var i: nat :| i < |entries| && entries[i] == line && Wins(entries, i, |entries|, path);
      assert Longest(surface, path, i);
    }
  }

  /* ---- A record's own files ---- */

  lemma {:induction false} PartBeforeIs(spec: string, i: nat)
    requires i + 1 < |spec| && forall j: nat :: i < j ==> !LastCut.Colons(spec, j)
    ensures LastCut.Precedes(spec, PartBefore(spec, i))
  {
    if LastCut.Colons(spec, i) {
      assert LastCut.IsLast(spec, i);
    } else if i > 0 {
      PartBeforeIs(spec, i - 1);
    }
  }

  /** What a test or a generator names is its path: everything before the last "::". */
  lemma OwnPathMeans(spec: string, path: string)
    ensures OwnPath(spec) == path <==> LastCut.Precedes(spec, path)
  {
    if |spec| >= 2 { PartBeforeIs(spec, |spec| - 2); }
    if LastCut.Precedes(spec, path) && !LastCut.NoColons(spec) {
      var i: nat :| LastCut.IsLast(spec, i) && path == spec[..i];
      var j: nat :| LastCut.IsLast(spec, j) && OwnPath(spec) == spec[..j];
      LastCut.CutOnce(spec, i, j);
    }
  }

  lemma OwnPathJoined(path: string, name: string)
    requires LastCut.Simple(name)
    ensures OwnPath(path + "::" + name) == path
    ensures LastCut.NoColons(path) ==> OwnPath(path) == path
  {
    var spec := path + "::" + name;
    LastCut.Joined(path, name);
    assert LastCut.Colons(spec, |path|);
    OwnPathMeans(spec, path);
    OwnPathMeans(path, path);
  }

  /* ---- Facets ---- */

  function Field(fields: Fields, key: string): string { if key !in fields then "" else fields[key] }

  ghost predicate Matched(value: string, patterns: seq<string>) {
    exists pattern :: pattern in patterns && Globs.Matches(value, pattern)
  }

  // A rule's field has a value that one of its patterns matches.
  ghost predicate Keyed(fields: Fields, clause: Clause) { Matched(Field(fields, clause.field), clause.patterns) }

  ghost predicate OwnsIn(surface: Surface, spec: string, facet: string) {
    exists path: string :: LastCut.Precedes(spec, path) && LiesIn(surface, path, facet)
  }

  // `core`, the facet of an own file, or one that a rule names whose clauses all match.
  ghost predicate DependsOn(surface: Surface, fields: Fields, facet: string) {
    || facet == "core"
    || (facet != "" && (OwnsIn(surface, Field(fields, "test"), facet) || OwnsIn(surface, Field(fields, "dgp"), facet)))
    || (exists rule :: rule in surface.keys && rule.facet == facet && Keyed(fields, rule.clause))
    || (exists rule :: rule in surface.allKeys && rule.facet == facet
                       && forall clause :: clause in rule.clauses ==> Keyed(fields, clause))
  }

  lemma ClauseMeans(fields: Fields, clause: Clause)
    ensures ClauseHolds(fields, clause) <==> Keyed(fields, clause)
  {
    hide Globs.Matches;
    if Globs.MatchesAny(Get(fields, clause.field), clause.patterns) {
      var i :| 0 <= i < |clause.patterns| && Globs.Matches(Get(fields, clause.field), clause.patterns[i]);
      assert clause.patterns[i] in clause.patterns;
    }
  }

  lemma OwnMeans(surface: Surface, spec: string, facet: string)
    ensures FacetOf(surface, OwnPath(spec)) == Some(facet) <==> OwnsIn(surface, spec, facet)
  {
    hide FacetOf, OwnPath, LiesIn, LastCut.Precedes;
    OwnPathMeans(spec, OwnPath(spec));
    FacetMeans(surface, OwnPath(spec), facet);
    forall path: string | LastCut.Precedes(spec, path) ensures path == OwnPath(spec) { OwnPathMeans(spec, path); }
  }

  lemma KeyedMeans(surface: Surface, fields: Fields, facet: string)
    ensures KeyedFacet(surface, fields, facet) <==>
            || (exists rule :: rule in surface.keys && rule.facet == facet && Keyed(fields, rule.clause))
            || (exists rule :: rule in surface.allKeys && rule.facet == facet
                               && forall clause :: clause in rule.clauses ==> Keyed(fields, clause))
  {
    hide ClauseHolds, Keyed;
    forall clause ensures ClauseHolds(fields, clause) <==> Keyed(fields, clause) { ClauseMeans(fields, clause); }
    forall rule | rule in surface.allKeys
      ensures AllHold(fields, rule.clauses) <==> forall clause :: clause in rule.clauses ==> Keyed(fields, clause)
    {
      assert forall i :: 0 <= i < |rule.clauses| ==> rule.clauses[i] in rule.clauses;
    }
    assert forall i :: 0 <= i < |surface.keys| ==> surface.keys[i] in surface.keys;
    assert forall i :: 0 <= i < |surface.allKeys| ==> surface.allKeys[i] in surface.allKeys;
  }

  /** The facets a record depends on, from its raw fields. */
  lemma CarriesMeans(surface: Surface, fields: Fields, facet: string)
    ensures Carries(surface, fields, facet) <==> DependsOn(surface, fields, facet)
  {
    hide KeyedFacet, OwnsIn, Keyed, FacetOf, OwnPath;
    assert Field(fields, "test") == Get(fields, "test") && Field(fields, "dgp") == Get(fields, "dgp");
    OwnMeans(surface, Get(fields, "test"), facet);
    OwnMeans(surface, Get(fields, "dgp"), facet);
    KeyedMeans(surface, fields, facet);
  }

  /** A record whose test is a path, a cut and a name depends on the facet of that path. */
  lemma TestCarried(surface: Surface, fields: Fields, path: string, name: string, facet: string)
    requires LastCut.Simple(name) && Field(fields, "test") == path + "::" + name
    requires facet != "" && LiesIn(surface, path, facet)
    ensures Carries(surface, fields, facet)
  {
    hide LiesIn, OwnPath, FacetOf, KeyedFacet;
    OwnPathJoined(path, name);
    FacetMeans(surface, path, facet);
  }

  /* ---- Standing ---- */

  // The facet a path counts for: its own, or `core` where it has none or an empty one.
  ghost predicate CountsFor(surface: Surface, path: string, facet: string) {
    if exists own :: own != "" && LiesIn(surface, path, own) then LiesIn(surface, path, facet) && facet != ""
    else facet == "core"
  }

  lemma CountsMeans(surface: Surface, path: string, facet: string)
    ensures FacetOrCore(surface, path) == facet <==> CountsFor(surface, path, facet)
  {
    hide FacetOf, LiesIn, Uncovered;
    forall own ensures FacetOf(surface, path) == Some(own) <==> LiesIn(surface, path, own) { FacetMeans(surface, path, own); }
  }

  // A listed path that the record depends on and whose content differs from the commit's.
  ghost predicate Changes(env: Env, record: Record, commit: string, path: string) {
    && path in env.repo.files && env.repo.differs(commit, path)
    && exists facet: string :: CountsFor(env.surface, path, facet) && DependsOn(env.surface, record.fields, facet)
  }

  lemma DriftsMean(env: Env, record: Record, commit: string, path: string)
    ensures Drifts(env, record, commit, path) <==> Changes(env, record, commit, path)
  {
    hide FacetOrCore, CountsFor, Carries, DependsOn;
    var facet := FacetOrCore(env.surface, path);
    CountsMeans(env.surface, path, facet);
    CarriesMeans(env.surface, record.fields, facet);
    forall f | CountsFor(env.surface, path, f) ensures f == facet { CountsMeans(env.surface, path, f); }
  }

  // A gate's row needs a waiver for gates, a positive count, and a ledger that holds that count.
  ghost predicate MayExcuse(env: Env, record: Record, commit: string, waiver: Waiver) {
    (exists rest: string :: record.id == "gate." + rest) ==>
      && waiver.recordlessGates && record.passed.Some? && record.passed.value >= 1
      && var ledger := match env.repo.resolve(waiver.gateLedger) case Some(found) => found case None => "";
         env.repo.gatePass(ledger, record.id, commit) == Some(record.passed.value)
  }

  lemma EligibleMeans(env: Env, record: Record, commit: string, waiver: Waiver)
    ensures Eligible(env, record, commit, waiver) <==> MayExcuse(env, record, commit, waiver)
  {
    if StartsWith(record.id, "gate.") { assert record.id == "gate." + record.id[5..]; }
    if rest: string :| record.id == "gate." + rest { assert record.id[..5] == "gate."; }
  }

  // One waiver from the record's commit names every changed path, and nothing changed after its end.
  ghost predicate Covered(env: Env, record: Record, commit: string, waiver: Waiver) {
    && MayExcuse(env, record, commit, waiver)
    && env.repo.resolve(waiver.from_) == Some(commit)
    && (forall path :: Changes(env, record, commit, path) ==> path in waiver.paths)
    && match env.repo.resolve(waiver.to)
       case None => false
       case Some(end) => forall path :: !Changes(env, record, end, path)
  }

  lemma ExcusesMean(env: Env, record: Record, commit: string, waiver: Waiver)
    ensures Excuses(env, record, commit, waiver) <==> Covered(env, record, commit, waiver)
  {
    hide Eligible, MayExcuse, Drifts, Changes;
    EligibleMeans(env, record, commit, waiver);
    forall c, path ensures Drifts(env, record, c, path) <==> Changes(env, record, c, path) { DriftsMean(env, record, c, path); }
  }

  // A named commit that the clone holds, and no change since it or a waiver for all of them.
  ghost predicate Accounted(env: Env, record: Record) {
    && record.sha != ""
    && match env.repo.resolve(record.sha)
       case None => false
       case Some(commit) =>
         || (forall path :: !Changes(env, record, commit, path))
         || exists waiver :: waiver in env.waivers && Covered(env, record, commit, waiver)
  }

  /** A record stands exactly when its raw fields account for it. */
  lemma StandsFields(env: Env, record: Record)
    ensures Verdicts.Stands(env, record) <==> Accounted(env, record)
  {
    hide Excuses, Covered, Drifts, Changes;
    forall c, path ensures Drifts(env, record, c, path) <==> Changes(env, record, c, path) { DriftsMean(env, record, c, path); }
    forall c, w ensures Excuses(env, record, c, w) <==> Covered(env, record, c, w) { ExcusesMean(env, record, c, w); }
  }
}
