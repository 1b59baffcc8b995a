/** Reachability in a graph given by each node's successors. */
module Reach {

  type Graph = map<string, set<string>>

  predicate Edge(g: Graph, a: string, b: string) { a in g && b in g[a] }

  predicate IsPath(g: Graph, p: seq<string>) {
    |p| >= 2 && forall i :: 0 <= i < |p| - 1 ==> Edge(g, p[i], p[i + 1])
  }

  // `b` is reachable from `a` by one edge or more.
  ghost predicate Reaches(g: Graph, a: string, b: string) {
    exists p :: IsPath(g, p) && p[0] == a && p[|p| - 1] == b
  }

  ghost predicate Cyclic(g: Graph) { exists v :: Reaches(g, v, v) }

  lemma EdgeReaches(g: Graph, a: string, b: string)
    requires Edge(g, a, b)
    ensures Reaches(g, a, b)
  {
    assert IsPath(g, [a, b]);
  }

  lemma ReachesJoin(g: Graph, a: string, b: string, c: string)
    requires Reaches(g, a, b) && Reaches(g, b, c)
    ensures Reaches(g, a, c)
  {
    var p :| IsPath(g, p) && p[0] == a && p[|p| - 1] == b;
    var q :| IsPath(g, q) && q[0] == b && q[|q| - 1] == c;
    var r := p + q[1..];
    forall i | 0 <= i < |r| - 1 ensures Edge(g, r[i], r[i + 1]) {
      if i >= |p| - 1 {
        assert r[i + 1] == q[i + 2 - |p|];
        assert r[i] == q[i + 1 - |p|];
      }
    }
    assert r[|r| - 1] == c;
  }

  lemma ReachesEdge(g: Graph, a: string, b: string, c: string)
    requires Reaches(g, a, b) && Edge(g, b, c)
    ensures Reaches(g, a, c)
  {
    EdgeReaches(g, b, c);
    ReachesJoin(g, a, b, c);
  }

  // A path starts with an edge, and what follows is an end or a path again.
  lemma FirstStep(g: Graph, a: string, c: string)
    requires Reaches(g, a, c)
    ensures Edge(g, a, c) || exists b :: Edge(g, a, b) && Reaches(g, b, c)
  {
    var p :| IsPath(g, p) && p[0] == a && p[|p| - 1] == c;
    if |p| > 2 {
      var q := p[1..];
      forall i | 0 <= i < |q| - 1 ensures Edge(g, q[i], q[i + 1]) {
        assert Edge(g, p[i + 1], p[i + 2]);
      }
      assert IsPath(g, q);
      assert Edge(g, a, p[1]) && Reaches(g, p[1], c);
    }
  }

  // A set that keeps its members' successors keeps everything they reach.
  lemma ClosedReaches(g: Graph, s: set<string>, a: string, c: string)
    requires a in s && Reaches(g, a, c)
    requires forall v, w :: v in s && Edge(g, v, w) ==> w in s
    ensures c in s
  {
    var p :| IsPath(g, p) && p[0] == a && p[|p| - 1] == c;
    for i := 0 to |p| - 1
      invariant p[i] in s
    {
      assert Edge(g, p[i], p[i + 1]);
    }
  }
}
