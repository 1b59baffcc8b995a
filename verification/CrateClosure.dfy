/** The transitive closure of crate dependencies, computed in place until nothing changes. */
module CrateClosure {
  import opened Reach
  import FiniteSums

  // What `deps` still lacks, as pairs of a crate and a name.
  ghost function Lacking(deps: Graph, names: set<string>): set<(string, string)> {
    set c, n | c in deps && n in names && n !in deps[c] :: (c, n)
  }

  ghost predicate Between(direct: Graph, deps: Graph, names: set<string>) {
    && deps.Keys == direct.Keys
    && (forall c :: c in direct ==> direct[c] <= deps[c] <= names)
    && (forall c, n :: c in deps && n in deps[c] ==> Reaches(direct, c, n))
  }

  ghost predicate Settled(deps: Graph, c: string) {
    c in deps ==> forall d :: d in deps[c] && d in deps ==> deps[d] <= deps[c]
  }

  // One crate's dependencies and everything they lead to at present.
  method Widen(deps: Graph, crate: string) returns (closure: set<string>)
    requires crate in deps
    ensures forall n :: n in closure <==> n in deps[crate] || exists d :: d in deps[crate] && Edge(deps, d, n)
  {
    closure := deps[crate];
    var todo := deps[crate];
    while todo != {}
      invariant todo <= deps[crate]
      invariant forall n :: n in closure <==> n in deps[crate] || exists d :: d in deps[crate] - todo && Edge(deps, d, n)
      decreases todo
    {
      var dep :| dep in todo;
      ghost var was := closure;
      if dep in deps {
        closure := closure + deps[dep];
      }
      assert forall n :: n in closure <==> n in was || Edge(deps, dep, n);
      todo := todo - {dep};
      assert forall d :: d in deps[crate] - todo <==> d == dep || d in deps[crate] - todo - {dep};
    }
  }

  lemma WidenKeeps(direct: Graph, deps: Graph, names: set<string>, crate: string, closure: set<string>)
    requires Between(direct, deps, names) && crate in deps
    requires forall n :: n in closure <==> n in deps[crate] || exists d :: d in deps[crate] && Edge(deps, d, n)
    ensures Between(direct, deps[crate := closure], names)
    ensures closure == deps[crate] ==> Settled(deps, crate)
  {
    hide Reaches;
    forall n | n in closure ensures Reaches(direct, crate, n) && n in names {
      if n !in deps[crate] {
        var d :| d in deps[crate] && Edge(deps, d, n);
        ReachesJoin(direct, crate, d, n);
      }
    }
    if closure == deps[crate] {
      forall d, n | d in deps[crate] && d in deps && n in deps[d] ensures n in deps[crate] {
        assert Edge(deps, d, n);
      }
    }
  }

  lemma WidenLacks(deps: Graph, names: set<string>, crate: string, closure: set<string>)
    requires crate in deps && deps[crate] <= closure <= names && closure != deps[crate]
    ensures |Lacking(deps[crate := closure], names)| < |Lacking(deps, names)|
  {
    var less, more := Lacking(deps[crate := closure], names), Lacking(deps, names);
    var n :| n in closure && n !in deps[crate];
    assert (crate, n) in more && (crate, n) !in less;
    assert less <= more - {(crate, n)};
    FiniteSums.SizeSubset(less, more - {(crate, n)});
  }

  function Names(direct: Graph): set<string> { set c, n | c in direct && n in direct[c] :: n }

  /**
   * Whatever order the crates are taken in, the passes end with each crate mapped to exactly
   * the names reachable from it by one dependency edge or more.
   */
  method CrateDeps(direct: Graph) returns (deps: Graph)
    ensures deps.Keys == direct.Keys
    ensures forall c, n :: c in deps ==> (n in deps[c] <==> Reaches(direct, c, n))
  {
    hide Reaches;
    deps := direct;
    ghost var names := Names(direct);
    DirectBetween(direct);
    var changed := true;
    while changed
      invariant Between(direct, deps, names)
      invariant !changed ==> forall c :: c in deps ==> Settled(deps, c)
      decreases |Lacking(deps, names)| + (if changed then 1 else 0)
    {
      hide Settled, Between, Lacking;
      changed := false;
      var todo := deps.Keys;
      ghost var start := deps;
      while todo != {}
        invariant Between(direct, deps, names)
        invariant todo <= deps.Keys
        invariant changed ==> |Lacking(deps, names)| < |Lacking(start, names)|
        invariant !changed ==> deps == start && forall c :: c in deps.Keys - todo ==> Settled(deps, c)
        decreases todo
      {
        var crate :| crate in todo;
        var closure := Widen(deps, crate);
        WidenKeeps(direct, deps, names, crate, closure);
        if closure != deps[crate] {
          InNames(direct, deps[crate := closure], names, crate);
          WidenLacks(deps, names, crate, closure);
          deps := deps[crate := closure];
          changed := true;
        }
        todo := todo - {crate};
      }
    }
    SettledComplete(direct, deps, names);
  }

  lemma DirectBetween(direct: Graph)
    ensures Between(direct, direct, Names(direct))
  {
    hide Reaches;
    forall c, n | c in direct && n in direct[c] ensures Reaches(direct, c, n) {
      assert Edge(direct, c, n);
      EdgeReaches(direct, c, n);
    }
  }

  lemma InNames(direct: Graph, deps: Graph, names: set<string>, crate: string)
    requires Between(direct, deps, names) && crate in deps
    ensures deps[crate] <= names
  {
  }

  lemma SettledComplete(direct: Graph, deps: Graph, names: set<string>)
    requires Between(direct, deps, names) && forall c :: c in deps ==> Settled(deps, c)
    ensures forall c, n :: c in deps ==> (n in deps[c] <==> Reaches(direct, c, n))
  {
    hide Reaches;
    forall c, n | c in deps && Reaches(direct, c, n) ensures n in deps[c] {
      if !Edge(direct, c, n) {
        FirstStep(direct, c, n);
        var b :| Edge(direct, c, b) && Reaches(direct, b, n);
        forall v, w | v in deps[c] && Edge(direct, v, w) ensures w in deps[c] {
          assert Settled(deps, c);
          assert deps[v] <= deps[c];
        }
        ClosedReaches(direct, deps[c], b, n);
      }
    }
  }
}
