/** The check that a new surface list does not drop a dependency the old list had. */
module Narrowing {
  import opened Prelude
  import opened Globs
  import opened Surfaces

  datatype Rule = Rule(facet: string, clauses: map<string, seq<string>>)

  datatype Problem =
    | Left(path: string, previous: Option<string>)
    | Moved(path: string, previous: Option<string>, current: string)
    | RuleNarrowed(rule: Rule)

  // A rule's clauses as a dictionary: a repeated field keeps its last patterns.
  function Dictionary(clauses: seq<Clause>): map<string, seq<string>> {
    if clauses == [] then map[] else
      var last := clauses[|clauses| - 1];
      Dictionary(clauses[..|clauses| - 1])[last.field := last.patterns]
  }

  function Rules(surface: Surface): seq<Rule> {
    seq(|surface.keys|, i requires 0 <= i < |surface.keys| =>
      Rule(surface.keys[i].facet, map[surface.keys[i].clause.field := surface.keys[i].clause.patterns]))
    + seq(|surface.allKeys|, i requires 0 <= i < |surface.allKeys| =>
      Rule(surface.allKeys[i].facet, Dictionary(surface.allKeys[i].clauses)))
  }

  predicate Includes(pattern: string, previous: string) {
    pattern == previous || pattern == "*" || (Literal(previous) && Matches(previous, pattern))
  }

  predicate CoversPattern(patterns: seq<string>, previous: string) {
    exists i :: 0 <= i < |patterns| && Includes(patterns[i], previous)
  }

  predicate CoversAll(patterns: seq<string>, previous: seq<string>) {
    forall i :: 0 <= i < |previous| ==> CoversPattern(patterns, previous[i])
  }

  predicate Replaces(candidate: Rule, rule: Rule) {
    && candidate.facet == rule.facet
    && (forall key :: key in candidate.clauses ==>
          key in rule.clauses && CoversAll(candidate.clauses[key], rule.clauses[key]))
  }

  predicate Replaced(rules: seq<Rule>, rule: Rule) {
    exists i :: 0 <= i < |rules| && Replaces(rules[i], rule)
  }

  // The paths the check compares: the old list's own and the listed files it covered.
  ghost predicate Compared(was: Surface, files: seq<string>, path: string) {
    || (exists i :: 0 <= i < |was.entries| && was.entries[i].path == path)
    || (path in files && FacetOf(was, path).Some?)
  }

  predicate Kept(was: Surface, now: Surface, path: string) {
    FacetOf(now, path).Some? && (FacetOf(now, path) == FacetOf(was, path) || FacetOf(now, path).value == CORE)
  }

  function PathProblem(was: Surface, now: Surface, path: string): Problem {
    match FacetOf(now, path)
    case None => Left(path, FacetOf(was, path))
    case Some(current) => Moved(path, FacetOf(was, path), current)
  }

  /**
   * The problems are exactly: a compared path that left the surface or moved to a facet other
   * than its own and `core`, and an old rule that no new rule replaces.
   */
  method SurfaceNarrowingProblems(was: Surface, now: Surface, files: seq<string>) returns (problems: seq<Problem>)
    ensures forall p :: p in problems <==>
      || (exists path :: Compared(was, files, path) && !Kept(was, now, path) && p == PathProblem(was, now, path))
      || (exists i :: 0 <= i < |Rules(was)| && !Replaced(Rules(now), Rules(was)[i]) && p == RuleNarrowed(Rules(was)[i]))
  {
    hide Rules, Replaced, FacetOf;
    problems := [];
    var paths := (set i | 0 <= i < |was.entries| :: was.entries[i].path)
                 + (set i | 0 <= i < |files| && FacetOf(was, files[i]).Some? :: files[i]);
    assert forall path :: path in paths <==> Compared(was, files, path);
    var todo := paths;
    while todo != {}
      invariant todo <= paths
      invariant forall p :: p in problems <==>
        exists path :: path in paths - todo && !Kept(was, now, path) && p == PathProblem(was, now, path)
      decreases todo
    {
      var path :| path in todo;
      var previous, current := FacetOf(was, path), FacetOf(now, path);
      ghost var sofar := problems;
      if current.None? {
        problems := problems + [Left(path, previous)];
      } else if current != previous && current.value != CORE {
        problems := problems + [Moved(path, previous, current.value)];
      }
      assert forall p :: p in problems <==> p in sofar || (!Kept(was, now, path) && p == PathProblem(was, now, path));
      todo := todo - {path};
      assert forall x :: x in paths - todo <==> x == path || x in paths - todo - {path};
    }
    ghost var first := problems;
    var rules, current := Rules(was), Rules(now);
    for m := 0 to |rules|
      invariant forall p :: p in problems <==>
        p in first || exists i :: 0 <= i < m && !Replaced(current, rules[i]) && p == RuleNarrowed(rules[i])
    {
      if !Replaced(current, rules[m]) {
        problems := problems + [RuleNarrowed(rules[m])];
      }
    }
  }

  ghost predicate NoProblems(was: Surface, now: Surface, files: seq<string>) {
    && (forall path :: Compared(was, files, path) ==> Kept(was, now, path))
    && (forall i :: 0 <= i < |Rules(was)| ==> Replaced(Rules(now), Rules(was)[i]))
  }

  /* ---- Rules ---- */

  // What a loaded list guarantees: no rule names a field twice.
  ghost predicate DistinctFields(clauses: seq<Clause>) {
    forall i, j :: 0 <= i < j < |clauses| ==> clauses[i].field != clauses[j].field
  }

  ghost predicate Loaded(surface: Surface) {
    forall i :: 0 <= i < |surface.allKeys| ==> DistinctFields(surface.allKeys[i].clauses)
  }

  predicate RuleHolds(fields: Fields, rule: Rule) {
    forall key :: key in rule.clauses ==> MatchesAny(Get(fields, key), rule.clauses[key])
  }

  lemma {:induction false} DictionaryKeys(clauses: seq<Clause>)
    ensures forall key :: key in Dictionary(clauses) <==> exists i :: 0 <= i < |clauses| && clauses[i].field == key
  {
    if clauses != [] {
      var rest := clauses[..|clauses| - 1];
      DictionaryKeys(rest);
      forall i | 0 <= i < |clauses| ensures clauses[i].field in Dictionary(clauses) {
        if i < |rest| { assert rest[i].field in Dictionary(rest); }
      }
      forall key | key in Dictionary(clauses) ensures exists i :: 0 <= i < |clauses| && clauses[i].field == key {
        if key != clauses[|clauses| - 1].field {
          assert key in Dictionary(rest);
          var i :| 0 <= i < |rest| && rest[i].field == key;
          assert clauses[i].field == key;
        }
      }
    }
  }

  lemma {:induction false} HoldsInDictionary(fields: Fields, clauses: seq<Clause>, facet: string)
    requires AllHold(fields, clauses)
    ensures RuleHolds(fields, Rule(facet, Dictionary(clauses)))
  {
    hide MatchesAny;
    if clauses != [] {
      var rest := clauses[..|clauses| - 1];
      assert ClauseHolds(fields, clauses[|clauses| - 1]);
      assert AllHold(fields, rest);
      HoldsInDictionary(fields, rest, facet);
    }
  }

  lemma {:induction false} HoldsByDictionary(fields: Fields, clauses: seq<Clause>, facet: string)
    requires DistinctFields(clauses) && RuleHolds(fields, Rule(facet, Dictionary(clauses)))
    ensures AllHold(fields, clauses)
  {
    hide MatchesAny;
    if clauses != [] {
      var rest, last := clauses[..|clauses| - 1], clauses[|clauses| - 1];
      DictionaryKeys(rest);
      assert last.field !in Dictionary(rest);
      assert Dictionary(clauses) == Dictionary(rest)[last.field := last.patterns];
      LaterField(fields, Dictionary(rest), last.field, last.patterns, facet);
      HoldsByDictionary(fields, rest, facet);
      assert ClauseHolds(fields, last);
      forall i | 0 <= i < |clauses| ensures ClauseHolds(fields, clauses[i]) {
        if i < |rest| { assert ClauseHolds(fields, rest[i]); }
      }
    }
  }

  lemma LaterField(fields: Fields, rest: map<string, seq<string>>, key: string, patterns: seq<string>, facet: string)
    requires key !in rest && RuleHolds(fields, Rule(facet, rest[key := patterns]))
    ensures RuleHolds(fields, Rule(facet, rest)) && MatchesAny(Get(fields, key), patterns)
  {
  }

  lemma KeyedByRule(surface: Surface, fields: Fields, facet: string)
    ensures KeyedFacet(surface, fields, facet) ==>
              exists i :: 0 <= i < |Rules(surface)| && Rules(surface)[i].facet == facet && RuleHolds(fields, Rules(surface)[i])
    ensures Loaded(surface) ==>
              forall i :: 0 <= i < |Rules(surface)| && RuleHolds(fields, Rules(surface)[i]) ==>
                KeyedFacet(surface, fields, Rules(surface)[i].facet)
  {
    hide MatchesAny, Dictionary;
    var rules, n := Rules(surface), |surface.keys|;
    if KeyedFacet(surface, fields, facet) {
      if i :| 0 <= i < n && surface.keys[i].facet == facet && ClauseHolds(fields, surface.keys[i].clause) {
        assert RuleHolds(fields, rules[i]);
      } else {
        var i :| 0 <= i < |surface.allKeys| && surface.allKeys[i].facet == facet && AllHold(fields, surface.allKeys[i].clauses);
        HoldsInDictionary(fields, surface.allKeys[i].clauses, facet);
        assert rules[n + i] == Rule(facet, Dictionary(surface.allKeys[i].clauses));
      }
    }
    if Loaded(surface) {
      forall i | 0 <= i < |rules| && RuleHolds(fields, rules[i]) ensures KeyedFacet(surface, fields, rules[i].facet) {
        if i < n {
          var clause := surface.keys[i].clause;
          assert clause.field in rules[i].clauses;
          assert ClauseHolds(fields, clause);
        } else {
          HoldsByDictionary(fields, surface.allKeys[i - n].clauses, rules[i].facet);
        }
      }
    }
  }

  // A value that an old pattern matches is matched by the patterns that cover it.
  lemma CoverMatches(value: string, patterns: seq<string>, previous: seq<string>)
    requires CoversAll(patterns, previous) && MatchesAny(value, previous)
    ensures MatchesAny(value, patterns)
  {
    hide Matches;
    var i :| 0 <= i < |previous| && Matches(value, previous[i]);
    assert CoversPattern(patterns, previous[i]);
    var j :| 0 <= j < |patterns| && Includes(patterns[j], previous[i]);
    if patterns[j] != previous[i] {
      if patterns[j] == "*" {
        StarMatches(value);
      } else {
        LiteralMatches(value, previous[i]);
      }
    }
    assert Matches(value, patterns[j]);
  }

  lemma ReplacementHolds(fields: Fields, candidate: Rule, rule: Rule)
    requires Replaces(candidate, rule) && RuleHolds(fields, rule)
    ensures RuleHolds(fields, candidate)
  {
    hide MatchesAny, CoversAll;
    forall key | key in candidate.clauses ensures MatchesAny(Get(fields, key), candidate.clauses[key]) {
      CoverMatches(Get(fields, key), candidate.clauses[key], rule.clauses[key]);
    }
  }

  lemma KeyedStays(was: Surface, now: Surface, files: seq<string>, fields: Fields, facet: string)
    requires NoProblems(was, now, files) && Loaded(now)
    requires KeyedFacet(was, fields, facet)
    ensures KeyedFacet(now, fields, facet)
  {
    hide KeyedFacet, RuleHolds, Rules, Replaces, Kept, Compared;
    KeyedByRule(was, fields, facet);
    KeyedByRule(now, fields, facet);
    var i :| 0 <= i < |Rules(was)| && Rules(was)[i].facet == facet && RuleHolds(fields, Rules(was)[i]);
    assert Replaced(Rules(now), Rules(was)[i]);
    var j :| 0 <= j < |Rules(now)| && Replaces(Rules(now)[j], Rules(was)[i]);
    ReplacementHolds(fields, Rules(now)[j], Rules(was)[i]);
    SameFacet(Rules(now)[j], Rules(was)[i]);
  }

  lemma SameFacet(candidate: Rule, rule: Rule)
    requires Replaces(candidate, rule)
    ensures candidate.facet == rule.facet
  {
  }

  /* ---- Records ---- */

  // Whether a facet of one of the record's own files is still carried, or no listed file still has it.
  ghost predicate OwnStays(was: Surface, now: Surface, files: seq<string>, fields: Fields, facet: string) {
    OwnFacet(was, fields, facet) ==>
      Carries(now, fields, facet) || !exists path :: StillIn(was, now, files, facet, path)
  }

  ghost predicate StillIn(was: Surface, now: Surface, files: seq<string>, facet: string, path: string) {
    Compared(was, files, path) && FacetOf(was, path) == Some(facet) && FacetOf(now, path) == Some(facet)
  }

  ghost predicate DependenciesKept(was: Surface, now: Surface, files: seq<string>, fields: Fields) {
    forall path :: Compared(was, files, path) && Depends(was, fields, path) ==> Depends(now, fields, path)
  }

  /**
   * With no problem reported, a record keeps every dependency on a compared file exactly when
   * each facet of its own test and generator files is still carried or has no file left.
   */
  lemma NarrowingKeepsDependencies(was: Surface, now: Surface, files: seq<string>, fields: Fields)
    requires NoProblems(was, now, files) && Loaded(now)
    ensures DependenciesKept(was, now, files, fields) <==> forall facet :: OwnStays(was, now, files, fields, facet)
  {
    hide KeyedFacet, OwnFacet, FacetOf, Rules, Replaced;
    if forall facet :: OwnStays(was, now, files, fields, facet) {
      forall path | Compared(was, files, path) && Depends(was, fields, path) ensures Depends(now, fields, path) {
        assert Kept(was, now, path);
        DependencyStays(was, now, files, fields, path);
      }
    }
    if DependenciesKept(was, now, files, fields) {
      forall facet ensures OwnStays(was, now, files, fields, facet) {
        if OwnFacet(was, fields, facet) && exists path :: StillIn(was, now, files, facet, path) {
          var path :| StillIn(was, now, files, facet, path);
          OwnNamed(was, fields, facet);
          assert Depends(was, fields, path);
          assert Depends(now, fields, path);
        }
      }
    }
  }

  lemma OwnNamed(surface: Surface, fields: Fields, facet: string)
    requires OwnFacet(surface, fields, facet)
    ensures facet != ""
  {
  }

  lemma DependencyStays(was: Surface, now: Surface, files: seq<string>, fields: Fields, path: string)
    requires NoProblems(was, now, files) && Loaded(now)
    requires Compared(was, files, path) && Depends(was, fields, path) && Kept(was, now, path)
    requires OwnStays(was, now, files, fields, FacetOrCore(was, path))
    ensures Depends(now, fields, path)
  {
    hide KeyedFacet, OwnFacet, FacetOf, Rules, Replaced, Compared;
    var facet := FacetOrCore(was, path);
    if FacetOrCore(now, path) != CORE {
      assert FacetOf(now, path) == FacetOf(was, path);
      if KeyedFacet(was, fields, facet) {
        KeyedStays(was, now, files, fields, facet);
      } else {
        assert OwnFacet(was, fields, facet);
        assert StillIn(was, now, files, facet, path);
      }
    }
  }

  // A record whose own files keep their facets keeps every dependency.
  lemma OwnKeptSuffices(was: Surface, now: Surface, files: seq<string>, fields: Fields)
    requires NoProblems(was, now, files) && Loaded(now)
    requires FacetOf(now, OwnPath(Get(fields, "test"))) == FacetOf(was, OwnPath(Get(fields, "test")))
    requires FacetOf(now, OwnPath(Get(fields, "dgp"))) == FacetOf(was, OwnPath(Get(fields, "dgp")))
    ensures DependenciesKept(was, now, files, fields)
  {
    hide FacetOf, OwnPath, NoProblems, KeyedFacet;
    NarrowingKeepsDependencies(was, now, files, fields);
  }

  // Three files in two facets; the facet of the test file varies.
  function Example(facet: string): Surface {
    Surface([Line(CORE, "c"), Line(facet, "t"), Line("a", "u")], [], [])
  }

  // Without that the check misses a lost dependency: the test file moves to `core`, its neighbour stays.
  lemma NarrowingMisses()
    ensures var was, now, files, fields := Example("a"), Example(CORE), ["c", "t", "u"], map["test" := "t"];
            NoProblems(was, now, files) && Loaded(now) && !DependenciesKept(was, now, files, fields)
  {
    var was, now := Example("a"), Example(CORE);
    var fields: Fields := map["test" := "t"];
    var files := ["c", "t", "u"];
    forall path ensures FacetOf(was, path) == ExampleFacet("a", path) && FacetOf(now, path) == ExampleFacet(CORE, path) {
      ExampleFacets("a", path);
      ExampleFacets(CORE, path);
    }
    hide FacetOf;
    assert was.entries[2].path == "u";
    forall path | Compared(was, files, path) ensures Kept(was, now, path) {
      assert path == "c" || path == "t" || path == "u";
    }
    assert Get(fields, "test") == "t" && Get(fields, "dgp") == "";
    assert OwnPath("t") == "t" && OwnPath("") == "";
    hide OwnPath, Rules, Replaced;
    assert Compared(was, files, "u") && Depends(was, fields, "u") && !Depends(now, fields, "u");
  }

  function ExampleFacet(facet: string, rel: string): Option<string> {
    if rel == "c" then Some(CORE) else if rel == "t" then Some(facet) else if rel == "u" then Some("a") else None
  }

  lemma ExampleFacets(facet: string, rel: string)
    ensures FacetOf(Example(facet), rel) == ExampleFacet(facet, rel)
  {
    var entries := Example(facet).entries;
    assert Best(entries, 0, rel) == None;
    assert Best(entries, 1, rel) == if rel == "c" then Some(entries[0]) else None;
    assert Best(entries, 2, rel) == if rel == "t" then Some(entries[1]) else Best(entries, 1, rel);
  }

  /* ---- What replaces a rule, and what widens a list ---- */

  /**
   * A rule is replaced exactly when some rule names the same facet and no other field, and each of
   * its fields has, for every old pattern, that pattern, a star, or a pattern that matches the old
   * one when it has no special character.
   */
  lemma ReplacedMeans(rules: seq<Rule>, rule: Rule)
    ensures Replaced(rules, rule) <==>
            exists now :: now in rules && now.facet == rule.facet
              && forall field :: field in now.clauses ==>
                   && field in rule.clauses
                   && forall old_ :: old_ in rule.clauses[field] ==>
                        || old_ in now.clauses[field] || "*" in now.clauses[field]
                        || ((forall i :: 0 <= i < |old_| ==> old_[i] != '*' && old_[i] != '?' && old_[i] != '[')
                            && exists pattern :: pattern in now.clauses[field] && Matches(old_, pattern))
  {
    hide Matches, CoversAll;
    forall now: Rule, field | field in now.clauses && field in rule.clauses
      ensures CoversAll(now.clauses[field], rule.clauses[field]) <==>
              forall old_ :: old_ in rule.clauses[field] ==>
                || old_ in now.clauses[field] || "*" in now.clauses[field]
                || ((forall i :: 0 <= i < |old_| ==> old_[i] != '*' && old_[i] != '?' && old_[i] != '[')
                    && exists pattern :: pattern in now.clauses[field] && Matches(old_, pattern))
    {
      CoversAllMeans(now.clauses[field], rule.clauses[field]);
    }
    assert forall i :: 0 <= i < |rules| ==> rules[i] in rules;
  }

  lemma CoversAllMeans(patterns: seq<string>, previous: seq<string>)
    ensures CoversAll(patterns, previous) <==>
            forall old_ :: old_ in previous ==>
              || old_ in patterns || "*" in patterns
              || ((forall i :: 0 <= i < |old_| ==> old_[i] != '*' && old_[i] != '?' && old_[i] != '[')
                  && exists pattern :: pattern in patterns && Matches(old_, pattern))
  {
    hide Matches, CoversPattern;
    forall old_ ensures CoversPattern(patterns, old_) <==>
      (|| old_ in patterns || "*" in patterns
       || ((forall i :: 0 <= i < |old_| ==> old_[i] != '*' && old_[i] != '?' && old_[i] != '[')
           && exists pattern :: pattern in patterns && Matches(old_, pattern)))
    {
      CoversPatternMeans(patterns, old_);
    }
    assert forall i :: 0 <= i < |previous| ==> previous[i] in previous;
  }

  lemma CoversPatternMeans(patterns: seq<string>, old_: string)
    ensures CoversPattern(patterns, old_) <==>
            || old_ in patterns || "*" in patterns
            || ((forall i :: 0 <= i < |old_| ==> old_[i] != '*' && old_[i] != '?' && old_[i] != '[')
                && exists pattern :: pattern in patterns && Matches(old_, pattern))
  {
    hide Matches;
    assert Literal(old_) <==> forall i :: 0 <= i < |old_| ==> old_[i] != '*' && old_[i] != '?' && old_[i] != '[';
    if pattern :| pattern in patterns && Includes(pattern, old_) {
      var i :| 0 <= i < |patterns| && patterns[i] == pattern;
      assert Includes(patterns[i], old_);
    }
  }

  // The rules of a list: a field and its patterns for each `key`, all clauses for each `key_all`.
  lemma RulesMean(surface: Surface, rule: Rule)
    requires Loaded(surface)
    ensures rule in Rules(surface) <==>
            || (exists k :: k in surface.keys && rule == Rule(k.facet, map[k.clause.field := k.clause.patterns]))
            || (exists k :: k in surface.allKeys && rule.facet == k.facet
                  && (forall field :: field in rule.clauses <==> exists c :: c in k.clauses && c.field == field)
                  && (forall c :: c in k.clauses ==> c.field in rule.clauses && rule.clauses[c.field] == c.patterns))
  {
    RuleSources(surface, rule);
    hide Rules, Dictionary, DistinctFields;
    forall k | k in surface.allKeys
      ensures rule == Rule(k.facet, Dictionary(k.clauses)) <==>
              && rule.facet == k.facet
              && (forall field :: field in rule.clauses <==> exists c :: c in k.clauses && c.field == field)
              && (forall c :: c in k.clauses ==> c.field in rule.clauses && rule.clauses[c.field] == c.patterns)
    {
      var i :| 0 <= i < |surface.allKeys| && surface.allKeys[i] == k;
      assert DistinctFields(surface.allKeys[i].clauses);
      DictionaryMeans(k.clauses, rule);
    }
  }

  lemma RuleSources(surface: Surface, rule: Rule)
    ensures rule in Rules(surface) <==>
            || (exists k :: k in surface.keys && rule == Rule(k.facet, map[k.clause.field := k.clause.patterns]))
            || (exists k :: k in surface.allKeys && rule == Rule(k.facet, Dictionary(k.clauses)))
  {
    hide Dictionary;
    var keyed := seq(|surface.keys|, i requires 0 <= i < |surface.keys| =>
        Rule(surface.keys[i].facet, map[surface.keys[i].clause.field := surface.keys[i].clause.patterns]));
    var keyedAll := seq(|surface.allKeys|, i requires 0 <= i < |surface.allKeys| =>
        Rule(surface.allKeys[i].facet, Dictionary(surface.allKeys[i].clauses)));
    assert Rules(surface) == keyed + keyedAll;
    hide Rules;
    assert rule in keyed <==>
           exists k :: k in surface.keys && rule == Rule(k.facet, map[k.clause.field := k.clause.patterns]) by {
      if rule in keyed {
        var i :| 0 <= i < |keyed| && keyed[i] == rule;
        assert surface.keys[i] in surface.keys;
      }
      if k :| k in surface.keys && rule == Rule(k.facet, map[k.clause.field := k.clause.patterns]) {
        var i :| 0 <= i < |surface.keys| && surface.keys[i] == k;
        assert keyed[i] == rule;
      }
    }
    assert rule in keyedAll <==> exists k :: k in surface.allKeys && rule == Rule(k.facet, Dictionary(k.clauses)) by {
      if rule in keyedAll {
        var i :| 0 <= i < |keyedAll| && keyedAll[i] == rule;
        assert surface.allKeys[i] in surface.allKeys;
      }
      if k :| k in surface.allKeys && rule == Rule(k.facet, Dictionary(k.clauses)) {
        var i :| 0 <= i < |surface.allKeys| && surface.allKeys[i] == k;
        assert keyedAll[i] == rule;
      }
    }
  }

  lemma DictionaryMeans(clauses: seq<Clause>, rule: Rule)
    requires DistinctFields(clauses)
    ensures rule.clauses == Dictionary(clauses) <==>
            && (forall field :: field in rule.clauses <==> exists c :: c in clauses && c.field == field)
            && (forall c :: c in clauses ==> c.field in rule.clauses && rule.clauses[c.field] == c.patterns)
  {
    hide Dictionary, DistinctFields;
    DictionaryKeys(clauses);
    DictionaryValues(clauses);
    assert forall i :: 0 <= i < |clauses| ==> clauses[i] in clauses;
    if (forall field :: field in rule.clauses <==> exists c :: c in clauses && c.field == field)
       && (forall c :: c in clauses ==> c.field in rule.clauses && rule.clauses[c.field] == c.patterns) {
      var d := Dictionary(clauses);
      forall field ensures (field in rule.clauses <==> field in d) && (field in d ==> rule.clauses[field] == d[field]) {
        if field in d {
          var i :| 0 <= i < |clauses| && clauses[i].field == field;
        }
      }
      assert rule.clauses == d;
    }
  }

  lemma {:induction false} DictionaryValues(clauses: seq<Clause>)
    requires DistinctFields(clauses)
    ensures forall c :: c in clauses ==> c.field in Dictionary(clauses) && Dictionary(clauses)[c.field] == c.patterns
  {
    if clauses != [] {
      var rest, last := clauses[..|clauses| - 1], clauses[|clauses| - 1];
      DistinctLast(clauses);
      hide DistinctFields;
      DictionaryValues(rest);
      assert Dictionary(clauses) == Dictionary(rest)[last.field := last.patterns];
      assert clauses == rest + [last];
    }
  }

  lemma DistinctLast(clauses: seq<Clause>)
    requires clauses != [] && DistinctFields(clauses)
    ensures var rest, last := clauses[..|clauses| - 1], clauses[|clauses| - 1];
            DistinctFields(rest) && forall c :: c in rest ==> c.field != last.field
  {
  }
}
