/**
 * The prerequisite checks: promotion records whose prerequisites are unknown, repeated or
 * cyclic, found by a depth-first visit with an active and a visited set.
 */
module Prerequisites {
  import opened Reach

  // An edge for every listed prerequisite, known or not.
  ghost function GraphOf(current: map<string, seq<string>>): Graph {
    map id | id in current :: set d | d in current[id]
  }

  datatype Problem =
    | Duplicate(id: string) | SelfPrerequisite(id: string) | UnknownPrerequisite(id: string, dependency: string)
    | CyclicPrerequisites(id: string)

  ghost predicate ReportsCycle(errors: seq<Problem>) {
    exists e :: e in errors && e.CyclicPrerequisites?
  }

  /** The state the nested visits share; `filtered` visits known dependencies only. */
  class Visitor {
    const current: map<string, seq<string>>
    const filtered: bool
    var active: set<string>
    var visited: set<string>
    var errors: seq<Problem>

    constructor (current: map<string, seq<string>>, filtered: bool, errors: seq<Problem>)
      requires !ReportsCycle(errors)
      ensures this.current == current && this.filtered == filtered
      ensures active == {} && visited == {} && this.errors == errors && Valid()
    {
      this.current, this.filtered := current, filtered;
      active, visited, this.errors := {}, {}, errors;
    }

    // A reported cycle is one; while none is reported, the visited ids lie on none.
    ghost predicate Valid()
      reads this
    {
      && active <= current.Keys && visited <= current.Keys && active !! visited
      && (ReportsCycle(errors) ==> Cyclic(GraphOf(current)))
      && (!ReportsCycle(errors) ==> Acyclic(current, visited))
    }

    // Visiting `id` from everything active.
    ghost predicate Entered(id: string)
      reads this
    {
      forall a :: a in active ==> Reaches(GraphOf(current), a, id)
    }

    method Visit(id: string)
      requires Valid() && Entered(id)
      modifies this
      ensures Valid() && active == old(active)
      ensures old(visited) <= visited
      ensures id in current && id !in active ==> id in visited
      ensures Appended(current, old(errors), errors)
      ensures id in active ==> ReportsCycle(errors)
      decreases current.Keys - active
    {
      hide Cyclic, Reaches, Acyclic;
      if id in active {
        AddCycle(errors, id);
        errors := errors + [CyclicPrerequisites(id)];
        CyclicFrom(current, id);
        return;
      }
      if id in visited || id !in current {
        return;
      }
      var outer := active;
      active := active + {id};
      var dependencies := current[id];
      for m := 0 to |dependencies|
        invariant Valid() && active == outer + {id} && old(visited) <= visited
        invariant Appended(current, old(errors), errors)
        invariant forall a :: a in outer ==> Reaches(GraphOf(current), a, id)
        invariant !ReportsCycle(errors) ==> forall i :: 0 <= i < m && dependencies[i] in current ==> dependencies[i] in visited
      {
        assert Edge(GraphOf(current), id, dependencies[m]);
        if !filtered || dependencies[m] in current {
          EnterNext(active, id, dependencies[m]);
          label before:
          Visit(dependencies[m]);
          AppendedKeeps(current, old@before(errors), errors);
          AppendedTwice(current, old(errors), old@before(errors), errors);
        }
      }
      if !ReportsCycle(errors) {
        LeaveAcyclic(current, visited, id);
      }
      active := active - {id};
      visited := visited + {id};
      assert active == outer;
    }

    lemma EnterNext(above: set<string>, id: string, next: string)
      requires id in above && (forall a :: a in above && a != id ==> Reaches(GraphOf(current), a, id))
      requires Edge(GraphOf(current), id, next)
      ensures forall a :: a in above ==> Reaches(GraphOf(current), a, next)
    {
      hide Reaches;
      forall a | a in above ensures Reaches(GraphOf(current), a, next) {
        if a == id { EdgeReaches(GraphOf(current), id, next); } else { ReachesEdge(GraphOf(current), a, id, next); }
      }
    }

    method VisitAll()
      requires Valid() && active == {} && visited == {}
      modifies this
      ensures Appended(current, old(errors), errors)
      ensures ReportsCycle(errors) <==> Cyclic(GraphOf(current))
    {
      hide Reaches, Acyclic;
      var todo := current.Keys;
      while todo != {}
        invariant Valid() && active == {} && todo <= current.Keys
        invariant Appended(current, old(errors), errors)
        invariant current.Keys - todo <= visited
        decreases todo
      {
        var id :| id in todo;
        label before:
        Visit(id);
        AppendedTwice(current, old(errors), old@before(errors), errors);
        todo := todo - {id};
      }
      if !ReportsCycle(errors) {
        assert visited == current.Keys;
        NoCycle(current, visited);
      }
    }
  }

  // Only reports of ids that lie on a cycle are appended.
  ghost predicate Appended(current: map<string, seq<string>>, was: seq<Problem>, now: seq<Problem>) {
    && |was| <= |now| && now[..|was|] == was
    && forall i :: |was| <= i < |now| ==> now[i].CyclicPrerequisites? && Reaches(GraphOf(current), now[i].id, now[i].id)
  }

  lemma AppendedTwice(current: map<string, seq<string>>, a: seq<Problem>, b: seq<Problem>, c: seq<Problem>)
    requires Appended(current, a, b) && Appended(current, b, c)
    ensures Appended(current, a, c)
  {
    hide Reaches;
  }

  lemma AppendedKeeps(current: map<string, seq<string>>, a: seq<Problem>, b: seq<Problem>)
    requires Appended(current, a, b)
    ensures ReportsCycle(a) ==> ReportsCycle(b)
  {
    hide Reaches;
  }

  lemma AddCycle(errors: seq<Problem>, id: string)
    ensures ReportsCycle(errors + [CyclicPrerequisites(id)])
  {
    assert (errors + [CyclicPrerequisites(id)])[|errors|] == CyclicPrerequisites(id);
  }

  lemma CyclicFrom(current: map<string, seq<string>>, id: string)
    requires Reaches(GraphOf(current), id, id)
    ensures Cyclic(GraphOf(current))
  {
  }

  // Closed under known successors, and on no cycle.
  ghost predicate Acyclic(current: map<string, seq<string>>, visited: set<string>) {
    && (forall v, d :: v in visited && v in current && d in current[v] && d in current ==> d in visited)
    && (forall v :: v in visited ==> !Reaches(GraphOf(current), v, v))
  }

  lemma LeaveAcyclic(current: map<string, seq<string>>, visited: set<string>, id: string)
    requires Acyclic(current, visited) && id in current && id !in visited
    requires forall i :: 0 <= i < |current[id]| && current[id][i] in current ==> current[id][i] in visited
    ensures Acyclic(current, visited + {id})
  {
    hide Reaches;
    var g := GraphOf(current);
    if Reaches(g, id, id) {
      FirstStep(g, id, id);
      if Edge(g, id, id) {
        assert false;
      } else {
        var b :| Edge(g, id, b) && Reaches(g, b, id);
        HasSuccessor(g, b, id);
        StaysVisited(current, visited, b, id);
        assert false;
      }
    }
  }

  lemma HasSuccessor(g: Graph, b: string, c: string)
    requires Reaches(g, b, c)
    ensures b in g
  {
    var p :| IsPath(g, p) && p[0] == b && p[|p| - 1] == c;
    assert Edge(g, p[0], p[1]);
  }

  lemma StaysVisited(current: map<string, seq<string>>, visited: set<string>, b: string, c: string)
    requires Acyclic(current, visited) && b in visited && c in current && Reaches(GraphOf(current), b, c)
    ensures c in visited
  {
    hide Reaches;
    var g := GraphOf(current);
    var unknown := set v, d | v in current && d in current[v] && d !in current :: d;
    ClosedReaches(g, visited + unknown, b, c);
  }

  lemma NoCycle(current: map<string, seq<string>>, visited: set<string>)
    requires visited == current.Keys && Acyclic(current, visited)
    ensures !Cyclic(GraphOf(current))
  {
    hide Reaches;
    if v :| Reaches(GraphOf(current), v, v) {
      HasSuccessor(GraphOf(current), v, v);
      assert false;
    }
  }

  /* ---- All problems of a list of records ---- */

  datatype Record = Record(id: string, prerequisites: seq<string>)

  // The records by id: a later record of the same id wins.
  function Current(records: seq<Record>): map<string, seq<string>> {
    if records == [] then map[] else
      var last := records[|records| - 1];
      Current(records[..|records| - 1])[last.id := last.prerequisites]
  }

  ghost predicate Repeats(s: seq<string>) { exists i, j :: 0 <= i < j < |s| && s[i] == s[j] }

  ghost predicate ListGood(current: map<string, seq<string>>, record: Record) {
    && !Repeats(record.prerequisites)
    && (forall d :: d in record.prerequisites ==> d != record.id && d in current)
  }

  // The complaints about the first `m` prerequisites of a record.
  ghost predicate Complains(current: map<string, seq<string>>, record: Record, m: nat, e: Problem)
    requires m <= |record.prerequisites|
  {
    || (e == Duplicate(record.id) && Repeats(record.prerequisites))
    || (e == SelfPrerequisite(record.id) && record.id in record.prerequisites[..m])
    || (e.UnknownPrerequisite? && e.id == record.id && e.dependency in record.prerequisites[..m]
        && e.dependency != record.id && e.dependency !in current)
  }

  method CheckList(current: map<string, seq<string>>, record: Record) returns (errors: seq<Problem>)
    ensures forall e :: e in errors <==> Complains(current, record, |record.prerequisites|, e)
    ensures errors == [] <==> ListGood(current, record)
    ensures !ReportsCycle(errors)
  {
    hide Repeats;
    errors := [];
    var distinct := set d | d in record.prerequisites;
    DistinctSize(record.prerequisites);
    if |record.prerequisites| != |distinct| {
      errors := [Duplicate(record.id)];
    }
    for m := 0 to |record.prerequisites|
      invariant forall e :: e in errors <==> Complains(current, record, m, e)
    {
      var dependency := record.prerequisites[m];
      assert record.prerequisites[..m + 1] == record.prerequisites[..m] + [dependency];
      if dependency == record.id {
        errors := errors + [SelfPrerequisite(record.id)];
      } else if dependency !in current {
        errors := errors + [UnknownPrerequisite(record.id, dependency)];
      }
    }
    NoComplaint(current, record, errors);
  }

  lemma NoComplaint(current: map<string, seq<string>>, record: Record, errors: seq<Problem>)
    requires forall e :: e in errors <==> Complains(current, record, |record.prerequisites|, e)
    ensures errors == [] <==> ListGood(current, record)
  {
    hide Repeats;
    var all := record.prerequisites;
    assert all[..|all|] == all;
    if errors != [] { assert errors[0] in errors; }
    if errors == [] {
      assert !Complains(current, record, |all|, Duplicate(record.id));
      assert !Complains(current, record, |all|, SelfPrerequisite(record.id));
      forall d | d in all ensures d in current {
        assert !Complains(current, record, |all|, UnknownPrerequisite(record.id, d));
      }
    }
  }

  lemma {:induction false} DistinctSize(s: seq<string>)
    ensures |set d | d in s| <= |s|
    ensures |set d | d in s| == |s| <==> !Repeats(s)
  {
    if s == [] {
      assert (set d | d in s) == {};
    } else {
      var rest, last := s[..|s| - 1], s[|s| - 1];
      DistinctSize(rest);
      assert s == rest + [last];
      assert (set d | d in s) == (set d | d in rest) + {last};
      if last in rest {
        var i :| 0 <= i < |rest| && rest[i] == last;
        assert s[i] == s[|s| - 1];
        assert (set d | d in s) == (set d | d in rest);
      } else if Repeats(rest) {
        var i, j :| 0 <= i < j < |rest| && rest[i] == rest[j];
        assert s[i] == s[j];
      }
    }
  }

  /**
   * No problem is reported exactly when every record's prerequisites are distinct, known and
   * not itself, and no chain of prerequisites leads back to where it started.
   */
  method Problems(records: seq<Record>) returns (errors: seq<Problem>)
    ensures errors == [] <==>
              && (forall r :: r in records ==> ListGood(Current(records), r))
              && !Cyclic(GraphOf(Current(records)))
    ensures ReportsCycle(errors) <==> Cyclic(GraphOf(Current(records)))
    ensures forall e :: e in errors && e.CyclicPrerequisites? ==> Reaches(GraphOf(Current(records)), e.id, e.id)
    ensures forall e :: e in errors && !e.CyclicPrerequisites? <==>
              exists r :: r in records && Complains(Current(records), r, |r.prerequisites|, e)
  {
    hide ListGood, Cyclic, Reaches, Complains;
    var current := Current(records);
    errors := [];
    for m := 0 to |records|
      invariant errors == [] <==> forall i :: 0 <= i < m ==> ListGood(current, records[i])
      invariant forall e :: e in errors <==>
        exists i :: 0 <= i < m && Complains(current, records[i], |records[i].prerequisites|, e)
      invariant !ReportsCycle(errors)
    {
      var more := CheckList(current, records[m]);
      errors := errors + more;
    }
    ghost var lists := errors;
    var visitor := new Visitor(current, true, errors);
    visitor.VisitAll();
    errors := visitor.errors;
    AppendedHolds(current, lists, errors);
    if |errors| > |lists| {
      assert errors[|lists|].CyclicPrerequisites?;
    } else {
      assert errors == lists;
    }
  }

  lemma AppendedHolds(current: map<string, seq<string>>, was: seq<Problem>, now: seq<Problem>)
    requires Appended(current, was, now) && !ReportsCycle(was)
    ensures forall e :: e in now && !e.CyclicPrerequisites? <==> e in was
    ensures forall e :: e in now && e.CyclicPrerequisites? ==> Reaches(GraphOf(current), e.id, e.id)
  {
    hide Reaches;
    assert now == was + now[|was|..];
  }

  // The visit of the feature packages follows every dependency, named ones it does not know included.
  method FeatureCycles(features: seq<Record>) returns (errors: seq<Problem>)
    ensures errors != [] <==> Cyclic(GraphOf(Current(features)))
    ensures forall e :: e in errors ==> e.CyclicPrerequisites? && Reaches(GraphOf(Current(features)), e.id, e.id)
  {
    hide Reaches;
    var visitor := new Visitor(Current(features), false, []);
    visitor.VisitAll();
    errors := visitor.errors;
    if errors != [] { assert errors[0] in errors; }
  }

  // Each id stands for the last record that has it.
  lemma {:induction false} CurrentMeans(records: seq<Record>, id: string)
    ensures id in Current(records) <==> exists i :: 0 <= i < |records| && records[i].id == id
    ensures id in Current(records) ==>
              exists i :: 0 <= i < |records| && records[i].id == id && Current(records)[id] == records[i].prerequisites
                          && forall j :: i < j < |records| ==> records[j].id != id
  {
    if records != [] {
      var rest, last := records[..|records| - 1], records[|records| - 1];
      CurrentMeans(rest, id);
      if last.id == id {
        assert records[|records| - 1].id == id;
      } else if id in Current(rest) {
        var i :| 0 <= i < |rest| && rest[i].id == id && Current(rest)[id] == rest[i].prerequisites
                 && forall j :: i < j < |rest| ==> rest[j].id != id;
        assert records[i] == rest[i];
        forall j | i < j < |records| ensures records[j].id != id {
          if j < |rest| { assert records[j] == rest[j]; }
        }
      }
    }
  }
}
