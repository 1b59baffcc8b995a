/** The calibration surface: which facet a path belongs to and which facets a record depends on. */
module Surfaces {
  import opened Prelude
  import Globs

  const CORE := "core"

  datatype Line = Line(facet: string, path: string)

  // A rule's patterns for one record field.
  datatype Clause = Clause(field: string, patterns: seq<string>)

  datatype KeyRule = KeyRule(facet: string, clause: Clause)
  datatype AllRule = AllRule(facet: string, clauses: seq<Clause>)

  datatype Surface = Surface(entries: seq<Line>, keys: seq<KeyRule>, allKeys: seq<AllRule>)

  type Fields = map<string, string>

  predicate StartsWith(s: string, p: string) { |p| <= |s| && s[..|p|] == p }

  predicate Covers(path: string, rel: string) {
    rel == path || (path != "" && path[|path| - 1] == '/' && StartsWith(rel, path))
  }

  // The best line among the first `m`: the longest that covers `rel`, the first of equals.
  function Best(entries: seq<Line>, m: nat, rel: string): Option<Line>
    requires m <= |entries|
  {
    if m == 0 then None else
      var best := Best(entries, m - 1, rel);
      var line := entries[m - 1];
      if Covers(line.path, rel) && (best.None? || |line.path| > |best.value.path|) then Some(line) else best
  }

  function FacetOf(surface: Surface, rel: string): Option<string> {
    match Best(surface.entries, |surface.entries|, rel)
    case None => None
    case Some(line) => Some(line.facet)
  }

  method FindFacet(surface: Surface, rel: string) returns (r: Option<string>)
    ensures r == FacetOf(surface, rel)
    ensures r.None? <==> forall i :: 0 <= i < |surface.entries| ==> !Covers(surface.entries[i].path, rel)
  {
    var best: Option<Line> := None;
    for m := 0 to |surface.entries|
      invariant best == Best(surface.entries, m, rel)
    {
      var line := surface.entries[m];
      if Covers(line.path, rel) && (best.None? || |line.path| > |best.value.path|) {
        best := Some(line);
      }
    }
    BestCovers(surface.entries, |surface.entries|, rel);
    r := if best.None? then None else Some(best.value.facet);
  }

  predicate Wins(entries: seq<Line>, i: nat, m: nat, rel: string)
    requires i < m <= |entries|
  {
    && Covers(entries[i].path, rel)
    && (forall j :: 0 <= j < m && Covers(entries[j].path, rel) ==>
          |entries[j].path| < |entries[i].path| || (|entries[j].path| == |entries[i].path| && i <= j))
  }

  // The longest covering line wins, and the first one among equally long ones.
  lemma {:induction false} BestCovers(entries: seq<Line>, m: nat, rel: string)
    requires m <= |entries|
    ensures Best(entries, m, rel).None? <==> forall i :: 0 <= i < m ==> !Covers(entries[i].path, rel)
    ensures forall line :: Best(entries, m, rel) == Some(line) <==>
                           exists i: nat :: i < m && entries[i] == line && Wins(entries, i, m, rel)
  {
    hide Covers;
    if m > 0 {
      BestCovers(entries, m - 1, rel);
      var was, line := Best(entries, m - 1, rel), entries[m - 1];
      if Covers(line.path, rel) && (was.None? || |line.path| > |was.value.path|) {
        assert Best(entries, m, rel) == Some(line);
        if was.Some? {
          var i: nat :| i < m - 1 && entries[i] == was.value && Wins(entries, i, m - 1, rel);
        }
        assert Wins(entries, m - 1, m, rel);
        forall i: nat | i < m && Wins(entries, i, m, rel) ensures i == m - 1 {
        }
      } else {
        assert Best(entries, m, rel) == was;
        if was.Some? {
          var i: nat :| i < m - 1 && entries[i] == was.value && Wins(entries, i, m - 1, rel);
          assert Wins(entries, i, m, rel);
          forall j: nat | j < m && Wins(entries, j, m, rel) ensures i == j {
          }
        }
      }
    }
  }

  // Two lines of one length that cover the same path are the same path.
  lemma CoversUnique(a: string, b: string, rel: string)
    requires Covers(a, rel) && Covers(b, rel) && |a| == |b|
    ensures a == b
  {
  }

  ghost predicate NoRepeats(entries: seq<Line>) {
    forall i, j :: 0 <= i < j < |entries| ==> entries[i].path != entries[j].path
  }

  // So the order of the lines does not matter when no path is listed twice.
  lemma OrderIrrelevant(a: Surface, b: Surface, rel: string)
    requires NoRepeats(a.entries) && NoRepeats(b.entries)
    requires forall line :: line in a.entries <==> line in b.entries
    ensures FacetOf(a, rel) == FacetOf(b, rel)
  {
    hide Covers, Best;
    BestCovers(a.entries, |a.entries|, rel);
    BestCovers(b.entries, |b.entries|, rel);
    BestKept(a.entries, b.entries, rel);
    BestKept(b.entries, a.entries, rel);
    var x, y := Best(a.entries, |a.entries|, rel), Best(b.entries, |b.entries|, rel);
    if x.Some? && y.Some? {
      CoversUnique(x.value.path, y.value.path, rel);
      OneLine(a.entries, x.value, y.value);
    }
  }

  lemma OneLine(entries: seq<Line>, x: Line, y: Line)
    requires NoRepeats(entries) && x in entries && y in entries && x.path == y.path
    ensures x == y
  {
  }

  lemma BestKept(a: seq<Line>, b: seq<Line>, rel: string)
    requires forall line :: line in a ==> line in b
    ensures var x, y := Best(a, |a|, rel), Best(b, |b|, rel);
            && (x.Some? ==> x.value in a && Covers(x.value.path, rel))
            && (y.Some? ==> y.value in b && Covers(y.value.path, rel))
            && (x.Some? ==> y.Some? && |x.value.path| <= |y.value.path|)
  {
    hide Covers, Best;
    BestCovers(a, |a|, rel);
    BestCovers(b, |b|, rel);
    var x, y := Best(a, |a|, rel), Best(b, |b|, rel);
    if y.Some? {
      var j: nat :| j < |b| && b[j] == y.value && Wins(b, j, |b|, rel);
    }
    if x.Some? {
      var i: nat :| i < |a| && a[i] == x.value && Wins(a, i, |a|, rel);
      assert a[i] in b;
      var k :| 0 <= k < |b| && b[k] == a[i];
      assert Covers(b[k].path, rel);
    }
  }

  /* ---- Records ---- */

  // `facet_of(rel) or CORE`: an empty facet name counts as none.
  function FacetOrCore(surface: Surface, rel: string): string {
    var f := FacetOf(surface, rel);
    if f.None? || f.value == "" then CORE else f.value
  }

  function Get(fields: Fields, key: string): string { if key in fields then fields[key] else "" }

  // What precedes the last "::" that starts at or before index `i`.
  function PartBefore(spec: string, i: nat): string
    requires i + 1 < |spec|
  {
    if spec[i] == ':' && spec[i + 1] == ':' then spec[..i]
    else if i == 0 then spec
    else PartBefore(spec, i - 1)
  }

  function OwnPath(spec: string): string {
    if |spec| < 2 then spec else PartBefore(spec, |spec| - 2)
  }

  predicate ClauseHolds(fields: Fields, clause: Clause) { Globs.MatchesAny(Get(fields, clause.field), clause.patterns) }

  predicate AllHold(fields: Fields, clauses: seq<Clause>) {
    forall i :: 0 <= i < |clauses| ==> ClauseHolds(fields, clauses[i])
  }

  predicate OwnFacet(surface: Surface, fields: Fields, facet: string) {
    && facet != ""
    && (FacetOf(surface, OwnPath(Get(fields, "test"))) == Some(facet) || FacetOf(surface, OwnPath(Get(fields, "dgp"))) == Some(facet))
  }

  predicate KeyedFacet(surface: Surface, fields: Fields, facet: string) {
    || (exists i :: 0 <= i < |surface.keys| && surface.keys[i].facet == facet && ClauseHolds(fields, surface.keys[i].clause))
    || (exists i :: 0 <= i < |surface.allKeys| && surface.allKeys[i].facet == facet && AllHold(fields, surface.allKeys[i].clauses))
  }

  // The facets a record depends on: `core`, those of its own files, and those keyed by its fields.
  predicate Carries(surface: Surface, fields: Fields, facet: string) {
    facet == CORE || OwnFacet(surface, fields, facet) || KeyedFacet(surface, fields, facet)
  }

  // Whether a record depends on a file.
  predicate Depends(surface: Surface, fields: Fields, path: string) {
    Carries(surface, fields, FacetOrCore(surface, path))
  }

  method RecordFacets(surface: Surface, fields: Fields) returns (facets: set<string>)
    ensures forall f :: f in facets <==> Carries(surface, fields, f)
  {
    hide FacetOf, OwnPath, Globs.Matches;
    facets := {CORE};
    var own := FindFacet(surface, OwnPath(Get(fields, "test")));
    if own.Some? && own.value != "" {
      facets := facets + {own.value};
    }
    own := FindFacet(surface, OwnPath(Get(fields, "dgp")));
    if own.Some? && own.value != "" {
      facets := facets + {own.value};
    }
    ghost var base := facets;
    for m := 0 to |surface.keys|
      invariant forall f :: f in facets <==> f in base || KeyedBy(surface, fields, m, f)
    {
      if ClauseHolds(fields, surface.keys[m].clause) {
        facets := facets + {surface.keys[m].facet};
      }
    }
    ghost var keyed := facets;
    for m := 0 to |surface.allKeys|
      invariant forall f :: f in facets <==> f in keyed || AllKeyedBy(surface, fields, m, f)
    {
      if AllHold(fields, surface.allKeys[m].clauses) {
        facets := facets + {surface.allKeys[m].facet};
      }
    }
  }

  predicate KeyedBy(surface: Surface, fields: Fields, m: nat, facet: string)
    requires m <= |surface.keys|
  {
    exists i :: 0 <= i < m && surface.keys[i].facet == facet && ClauseHolds(fields, surface.keys[i].clause)
  }

  predicate AllKeyedBy(surface: Surface, fields: Fields, m: nat, facet: string)
    requires m <= |surface.allKeys|
  {
    exists i :: 0 <= i < m && surface.allKeys[i].facet == facet && AllHold(fields, surface.allKeys[i].clauses)
  }
}
