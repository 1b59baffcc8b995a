/** The closure of module-level definitions that a cited Python test names. */
module PyClosure {
  import opened Reach

  // An assignment's target: a plain name, or a pattern with the names it holds.
  datatype Target = Name(id: string) | Pattern(names: seq<string>)

  // A module-level statement; `names` are the names its subtree mentions beside its targets.
  datatype Statement =
    | Function(name: string, names: seq<string>)
    | Assign(targets: seq<Target>, names: seq<string>)
    | AnnAssign(target: Target, names: seq<string>)
    | Other(names: seq<string>)

  // A node of the tree is a position in its body: equal statements at two positions are two nodes.
  type Tree = seq<Statement>

  /* ---- The index of definitions ---- */

  predicate UpperStart(c: char) { 'A' <= c <= 'Z' || c == '_' }

  // An upper-case identifier, digits allowed after its first character.
  predicate IsConstant(id: string) {
    id != "" && UpperStart(id[0]) && forall i :: 1 <= i < |id| ==> UpperStart(id[i]) || '0' <= id[i] <= '9'
  }

  predicate BindsTarget(target: Target, id: string) { target == Name(id) && IsConstant(id) }

  // Whether indexing a statement binds a name to it.
  predicate Binds(s: Statement, constants: bool, id: string) {
    match s
    case Function(name, _) => id == name
    case Assign(targets, _) => constants && exists i :: 0 <= i < |targets| && BindsTarget(targets[i], id)
    case AnnAssign(target, _) => constants && BindsTarget(target, id)
    case Other(_) => false
  }

  // A binding that no later statement replaces.
  ghost predicate Survives(tree: Tree, constants: bool, i: nat, id: string) {
    && i < |tree| && Binds(tree[i], constants, id)
    && forall j :: i < j < |tree| ==> !Binds(tree[j], constants, id)
  }

  type Defs = map<string, nat>

  // Each name stands for the last statement that binds it, among the first `m`.
  ghost predicate Indexed(tree: Tree, constants: bool, m: nat, defs: Defs)
    requires m <= |tree|
  {
    && (forall id :: id in defs ==> defs[id] < m && Survives(tree[..m], constants, defs[id], id))
    && (forall i, id :: 0 <= i < m && Binds(tree[i], constants, id) ==> id in defs)
  }

  method Index(tree: Tree, constants: bool) returns (defs: Defs)
    ensures Indexed(tree, constants, |tree|, defs)
  {
    defs := map[];
    for m := 0 to |tree|
      invariant Indexed(tree, constants, m, defs)
    {
      ghost var was := defs;
      match tree[m] {
        case Function(name, _) =>
          defs := defs[name := m];
        case Assign(targets, _) =>
          if constants {
            for k := 0 to |targets|
              invariant forall id :: id in defs <==> id in was || BoundBy(targets, k, id)
              invariant forall id :: id in defs ==>
                defs[id] == if BoundBy(targets, k, id) then m else was[id]
            {
              if targets[k].Name? && IsConstant(targets[k].id) {
                defs := defs[targets[k].id := m];
              }
              assert forall id :: BoundBy(targets, k + 1, id) <==> BoundBy(targets, k, id) || BindsTarget(targets[k], id);
            }
          }
        case AnnAssign(target, _) =>
          if constants && target.Name? && IsConstant(target.id) {
            defs := defs[target.id := m];
          }
        case Other(_) =>
      }
      IndexNext(tree, constants, m, was, defs);
    }
  }

  predicate BoundBy(targets: seq<Target>, k: nat, id: string)
    requires k <= |targets|
  {
    exists i :: 0 <= i < k && BindsTarget(targets[i], id)
  }

  lemma IndexNext(tree: Tree, constants: bool, m: nat, was: Defs, now: Defs)
    requires m < |tree| && Indexed(tree, constants, m, was)
    requires forall id :: id in now <==> id in was || Binds(tree[m], constants, id)
    requires forall id :: id in now ==> now[id] == if Binds(tree[m], constants, id) then m else was[id]
    ensures Indexed(tree, constants, m + 1, now)
  {
    hide Binds;
    var next := tree[..m + 1];
    assert forall i :: 0 <= i < m ==> next[i] == tree[..m][i];
    forall id | id in now ensures Survives(next, constants, now[id], id) {
      if !Binds(tree[m], constants, id) { assert Survives(tree[..m], constants, was[id], id); }
    }
  }

  function BoundNames(s: Statement, constants: bool): set<string> {
    match s
    case Function(name, _) => {name}
    case Assign(targets, _) =>
      if constants then set i | 0 <= i < |targets| && targets[i].Name? && IsConstant(targets[i].id) :: targets[i].id else {}
    case AnnAssign(target, _) => if constants && target.Name? && IsConstant(target.id) then {target.id} else {}
    case Other(_) => {}
  }

  lemma BoundNamesMeans(s: Statement, constants: bool, id: string)
    ensures id in BoundNames(s, constants) <==> Binds(s, constants, id)
  {
    if s.Assign? && Binds(s, constants, id) {
      var i :| 0 <= i < |s.targets| && BindsTarget(s.targets[i], id);
      assert s.targets[i].id in BoundNames(s, constants);
    }
  }

  lemma {:induction false} IndexExists(tree: Tree, constants: bool, m: nat) returns (defs: Defs)
    requires m <= |tree|
    ensures Indexed(tree, constants, m, defs)
  {
    hide Binds, BoundNames;
    if m == 0 {
      defs := map[];
    } else {
      var was := IndexExists(tree, constants, m - 1);
      var bound := BoundNames(tree[m - 1], constants);
      defs := map id | id in was.Keys + bound :: if id in bound then m - 1 else was[id];
      forall id ensures id in bound <==> Binds(tree[m - 1], constants, id) {
        BoundNamesMeans(tree[m - 1], constants, id);
      }
      IndexNext(tree, constants, m - 1, was, defs);
    }
  }

  lemma IndexUnique(tree: Tree, constants: bool, a: Defs, b: Defs)
    requires Indexed(tree, constants, |tree|, a) && Indexed(tree, constants, |tree|, b)
    ensures a == b
  {
    hide Indexed, Survives;
    forall id ensures (id in a <==> id in b) && (id in a ==> a[id] == b[id]) {
      if id in a { IndexSurvives(tree, constants, a, a[id], id); IndexSurvives(tree, constants, b, a[id], id); }
      if id in b { IndexSurvives(tree, constants, a, b[id], id); IndexSurvives(tree, constants, b, b[id], id); }
    }
  }

  lemma IndexPossible(tree: Tree, constants: bool)
    ensures exists defs :: Indexed(tree, constants, |tree|, defs)
  {
    var defs := IndexExists(tree, constants, |tree|);
  }

  // The one index a tree has.
  ghost function IndexOf(tree: Tree, constants: bool): (defs: Defs)
    ensures Indexed(tree, constants, |tree|, defs) && InTree(tree, defs)
  {
    IndexPossible(tree, constants);
    var defs :| Indexed(tree, constants, |tree|, defs);
    IndexInTree(tree, constants, defs);
    defs
  }

  /* ---- The walk ---- */

  function TargetNames(targets: seq<Target>): seq<string> {
    if targets == [] then [] else
      (match targets[0] case Name(id) => [id] case Pattern(names) => names) + TargetNames(targets[1..])
  }

  // The names in a statement's subtree; a target is one of them.
  function Walk(s: Statement): seq<string> {
    match s
    case Function(_, names) => names
    case Assign(targets, names) => TargetNames(targets) + names
    case AnnAssign(target, names) => TargetNames([target]) + names
    case Other(names) => names
  }

  ghost predicate InTree(tree: Tree, defs: Defs) { forall n :: n in defs ==> defs[n] < |tree| }

  ghost function Mentions(tree: Tree, defs: Defs): Graph
    requires InTree(tree, defs)
  {
    map n | n in defs :: set x | x in Walk(tree[defs[n]]) && x in defs
  }

  ghost predicate Wanted(tree: Tree, defs: Defs, name: string, n: string)
    requires InTree(tree, defs)
  {
    name in defs && n in defs && (n == name || Reaches(Mentions(tree, defs), name, n))
  }

  ghost predicate Distinct<A>(s: seq<A>) { forall i, j :: 0 <= i < j < |s| ==> s[i] != s[j] }

  ghost predicate Listed(defs: Defs, order: seq<string>, out: seq<nat>) {
    && |out| == |order|
    && (forall i :: 0 <= i < |order| ==> order[i] in defs && out[i] == defs[order[i]])
  }

  // `out` are the nodes of exactly the wanted names, once for each name, in the order given.
  ghost predicate Closure(tree: Tree, defs: Defs, name: string, order: seq<string>, out: seq<nat>)
    requires InTree(tree, defs)
  {
    && Listed(defs, order, out) && Distinct(order)
    && (forall n :: n in order <==> Wanted(tree, defs, name, n))
  }

  // The nodes of exactly the wanted names, once for each name, in some order.
  ghost predicate ClosureOf(tree: Tree, defs: Defs, name: string, out: seq<nat>)
    requires InTree(tree, defs)
  {
    exists order :: Closure(tree, defs, name, order, out)
  }

  /**
   * The worklist ends, and lists the node of every definition reachable from `name` through
   * the names the definitions mention, once for each name, `name` itself first.
   */
  method ClosureNodes(tree: Tree, name: string, constants: bool) returns (out: seq<nat>)
    ensures name !in IndexOf(tree, constants) ==> out == []
    ensures name in IndexOf(tree, constants) ==> out != [] && out[0] == IndexOf(tree, constants)[name]
    ensures ClosureOf(tree, IndexOf(tree, constants), name, out)
  {
    hide Reaches, Indexed, Walk, Mentions, Wanted;
    var index := Index(tree, constants);
    IndexUnique(tree, constants, index, IndexOf(tree, constants));
    ghost var order: seq<string> := [];
    var seen: set<string> := {};
    var todo := [name];
    out := [];
    if name in index { WantedFirst(tree, index, name); }
    while todo != []
      invariant seen <= index.Keys
      invariant forall n :: n in seen <==> n in order
      invariant Listed(index, order, out) && Distinct(order)
      invariant forall n :: n in seen ==> Wanted(tree, index, name, n)
      invariant forall n :: n in todo && n in index ==> Wanted(tree, index, name, n)
      invariant forall n, x :: n in seen && x in Walk(tree[index[n]]) && x in index ==> x in seen || x in todo
      invariant name in index ==> name in seen || name in todo
      invariant order == [] ==> todo == [name] || (todo == [] && name !in index)
      invariant order != [] ==> order[0] == name
      decreases index.Keys - seen, |todo|
    {
      var current := todo[|todo| - 1];
      ghost var was := todo;
      todo := todo[..|todo| - 1];
      assert was == todo + [current];
      if current in seen || current !in index {
        continue;
      }
      assert current in was;
      seen := seen + {current};
      out := out + [index[current]];
      order := order + [current];
      todo := todo + Walk(tree[index[current]]);
      forall n | n in todo && n in index ensures Wanted(tree, index, name, n) {
        if n in Walk(tree[index[current]]) {
          WantedNext(tree, index, name, current, n);
        } else {
          assert n in was;
        }
      }
    }
    AllSeen(tree, index, name, seen);
    assert Closure(tree, index, name, order, out);
  }

  lemma IndexInTree(tree: Tree, constants: bool, defs: Defs)
    requires Indexed(tree, constants, |tree|, defs)
    ensures InTree(tree, defs)
  {
  }

  lemma WantedFirst(tree: Tree, defs: Defs, name: string)
    requires InTree(tree, defs) && name in defs
    ensures Wanted(tree, defs, name, name)
  {
  }

  lemma WantedNext(tree: Tree, defs: Defs, name: string, current: string, n: string)
    requires InTree(tree, defs) && Wanted(tree, defs, name, current) && n in defs && n in Walk(tree[defs[current]])
    ensures Wanted(tree, defs, name, n)
  {
    hide Reaches, Walk;
    assert Edge(Mentions(tree, defs), current, n);
    if current == name {
      EdgeReaches(Mentions(tree, defs), name, n);
    } else {
      ReachesEdge(Mentions(tree, defs), name, current, n);
    }
  }

  lemma AllSeen(tree: Tree, defs: Defs, name: string, seen: set<string>)
    requires InTree(tree, defs) && seen <= defs.Keys && (name in defs ==> name in seen)
    requires forall n, x :: n in seen && x in Walk(tree[defs[n]]) && x in defs ==> x in seen
    ensures forall n :: Wanted(tree, defs, name, n) ==> n in seen
  {
    hide Reaches, Walk;
    forall n | Wanted(tree, defs, name, n) ensures n in seen {
      if n != name { ClosedReaches(Mentions(tree, defs), seen, name, n); }
    }
  }

  /* ---- When a node is listed twice ---- */

  // Two names of one statement that no later statement binds again.
  ghost predicate Shared(tree: Tree, constants: bool, i: nat, m: string, n: string) {
    m != n && Survives(tree, constants, i, m) && Survives(tree, constants, i, n)
  }

  lemma IndexSurvives(tree: Tree, constants: bool, defs: Defs, i: nat, n: string)
    requires Indexed(tree, constants, |tree|, defs)
    ensures Survives(tree, constants, i, n) <==> n in defs && defs[n] == i
  {
    hide Binds;
    assert tree[..|tree|] == tree;
  }

  lemma {:induction false} TargetWalked(targets: seq<Target>, i: nat, id: string)
    requires i < |targets| && targets[i] == Name(id)
    ensures id in TargetNames(targets)
  {
    if i > 0 { TargetWalked(targets[1..], i - 1, id); }
  }

  // A statement bound to two names is an assignment, and its walk meets both.
  lemma SharedWalked(s: Statement, constants: bool, m: string, n: string)
    requires m != n && Binds(s, constants, m) && Binds(s, constants, n)
    ensures constants && s.Assign? && n in Walk(s)
  {
    var i :| 0 <= i < |s.targets| && BindsTarget(s.targets[i], n);
    TargetWalked(s.targets, i, n);
  }

  // Wanting one name of a statement makes its other names wanted.
  lemma SharedWanted(tree: Tree, constants: bool, defs: Defs, name: string, i: nat, m: string, n: string)
    requires Indexed(tree, constants, |tree|, defs) && InTree(tree, defs)
    requires Shared(tree, constants, i, m, n) && Wanted(tree, defs, name, m)
    ensures Wanted(tree, defs, name, n) && defs[m] == defs[n] == i
  {
    hide Binds, Wanted, Walk, Indexed;
    IndexSurvives(tree, constants, defs, i, m);
    IndexSurvives(tree, constants, defs, i, n);
    SharedWalked(tree[i], constants, m, n);
    WantedNext(tree, defs, name, m, n);
  }

  // For one name: a node is listed twice exactly when a wanted name shares its statement.
  lemma DistinctFrom(tree: Tree, constants: bool, defs: Defs, name: string, order: seq<string>, out: seq<nat>)
    requires Indexed(tree, constants, |tree|, defs) && InTree(tree, defs) && Closure(tree, defs, name, order, out)
    ensures Distinct(out) <==> forall i: nat, m, n :: Wanted(tree, defs, name, m) ==> !Shared(tree, constants, i, m, n)
  {
    hide Wanted, Indexed, Survives;
    if i: nat, m, n :| Wanted(tree, defs, name, m) && Shared(tree, constants, i, m, n) {
      SharedWanted(tree, constants, defs, name, i, m, n);
      assert m in order && n in order;
      var x :| 0 <= x < |order| && order[x] == m;
      var y :| 0 <= y < |order| && order[y] == n;
      assert out[x] == out[y] && x != y;
    }
    if x, y :| 0 <= x < y < |out| && out[x] == out[y] {
      assert order[x] in order && order[y] in order;
      IndexSurvives(tree, constants, defs, out[x], order[x]);
      IndexSurvives(tree, constants, defs, out[x], order[y]);
      assert Shared(tree, constants, out[x], order[x], order[y]);
    }
  }

  // Without constants every node is listed once, for every tree and name.
  lemma FunctionsOnce(tree: Tree, defs: Defs, name: string, out: seq<nat>)
    requires Indexed(tree, false, |tree|, defs) && InTree(tree, defs) && ClosureOf(tree, defs, name, out)
    ensures Distinct(out)
  {
    hide Wanted, Indexed, Closure;
    var order :| Closure(tree, defs, name, order, out);
    DistinctFrom(tree, false, defs, name, order, out);
    forall i: nat, m, n ensures !Shared(tree, false, i, m, n) {
      if Shared(tree, false, i, m, n) { SharedWalked(tree[i], false, m, n); }
    }
  }

  lemma {:induction false} Enumerate(s: set<string>) returns (order: seq<string>)
    ensures Distinct(order) && forall n :: n in order <==> n in s
  {
    if s == {} {
      order := [];
    } else {
      var x :| x in s;
      var rest := Enumerate(s - {x});
      order := rest + [x];
    }
  }

  // Every name has a closure.
  lemma ClosureExists(tree: Tree, defs: Defs, name: string) returns (order: seq<string>, out: seq<nat>)
    requires InTree(tree, defs)
    ensures Closure(tree, defs, name, order, out)
  {
    hide Wanted;
    var wanted := set n | n in defs && Wanted(tree, defs, name, n);
    order := Enumerate(wanted);
    forall n | Wanted(tree, defs, name, n) ensures n in order {
      WantedIn(tree, defs, name, n);
      assert n in wanted;
    }
    assert forall i :: 0 <= i < |order| ==> order[i] in wanted;
    out := seq(|order|, i requires 0 <= i < |order| => defs[order[i]]);
  }

  lemma WantedIn(tree: Tree, defs: Defs, name: string, n: string)
    requires InTree(tree, defs) && Wanted(tree, defs, name, n)
    ensures n in defs
  {
  }

  /**
   * The nodes are listed once whatever name is asked for, exactly when no statement of the tree
   * is bound to two names that no later statement binds again.
   */
  lemma EveryNodeOnce(tree: Tree, constants: bool, defs: Defs)
    requires Indexed(tree, constants, |tree|, defs) && InTree(tree, defs)
    ensures (forall name, out: seq<nat> :: ClosureOf(tree, defs, name, out) ==> Distinct(out))
            <==> forall i: nat, m, n :: !Shared(tree, constants, i, m, n)
  {
    hide Closure, Indexed, Wanted, Shared, Distinct;
    if forall i: nat, m, n :: !Shared(tree, constants, i, m, n) {
      forall name, out: seq<nat> | ClosureOf(tree, defs, name, out) ensures Distinct(out) {
        var order :| Closure(tree, defs, name, order, out);
        DistinctFrom(tree, constants, defs, name, order, out);
      }
    }
    if i: nat, m, n :| Shared(tree, constants, i, m, n) {
      var order, out := ClosureExists(tree, defs, m);
      DistinctFrom(tree, constants, defs, m, order, out);
      SharedNamed(tree, constants, defs, i, m, n);
      assert ClosureOf(tree, defs, m, out) && !Distinct(out);
    }
  }

  lemma SharedNamed(tree: Tree, constants: bool, defs: Defs, i: nat, m: string, n: string)
    requires Indexed(tree, constants, |tree|, defs) && InTree(tree, defs) && Shared(tree, constants, i, m, n)
    ensures Wanted(tree, defs, m, m)
  {
    hide Wanted, Indexed, Survives;
    IndexSurvives(tree, constants, defs, i, m);
    WantedFirst(tree, defs, m);
  }

  const CHAINED: Tree := [Assign([Name("A"), Name("B")], [])]

  // A chained assignment is listed twice: `A = B = 1`, asked for `A`.
  lemma ChainedTwice(out: seq<nat>)
    requires ClosureOf(CHAINED, IndexOf(CHAINED, true), "A", out)
    ensures out == [0, 0]
  {
    hide Wanted, Indexed, IsConstant, IndexOf;
    var defs := IndexOf(CHAINED, true);
    var order :| Closure(CHAINED, defs, "A", order, out);
    ChainedShares();
    SharedNamed(CHAINED, true, defs, 0, "A", "B");
    SharedWanted(CHAINED, true, defs, "A", 0, "A", "B");
    forall n | n in order ensures n == "A" || n == "B" {
      WantedIn(CHAINED, defs, "A", n);
      IndexSurvives(CHAINED, true, defs, defs[n], n);
    }
    TwoListed(order, "A", "B");
    assert out[0] in [0] && out[1] in [0];
  }

  lemma ChainedShares()
    ensures Shared(CHAINED, true, 0, "A", "B")
  {
    assert BindsTarget(CHAINED[0].targets[0], "A") && BindsTarget(CHAINED[0].targets[1], "B");
  }

  lemma Third(order: seq<string>, i: nat, j: nat, k: nat)
    requires Distinct(order) && i < |order| && j < |order| && k < |order| && k != i && k != j
    ensures order[k] != order[i] && order[k] != order[j] && order[k] in order
  {
  }

  lemma TwoListed(order: seq<string>, a: string, b: string)
    requires Distinct(order) && a != b && a in order && b in order && forall n :: n in order ==> n == a || n == b
    ensures |order| == 2
  {
    var i :| 0 <= i < |order| && order[i] == a;
    var j :| 0 <= j < |order| && order[j] == b;
    if |order| > 2 {
      var k := if i != 0 && j != 0 then 0 else if i != 1 && j != 1 then 1 else 2;
      Third(order, i, j, k);
      assert false;
    }
  }

  /* ---- Names and walks, spelled out ---- */

  // Upper-case letters, digits and underscores, and no digit first.
  lemma ConstantMeans(id: string)
    ensures IsConstant(id) <==>
            && id != "" && !('0' <= id[0] <= '9')
            && forall i :: 0 <= i < |id| ==> 'A' <= id[i] <= 'Z' || '0' <= id[i] <= '9' || id[i] == '_'
  {
  }

  lemma {:induction false} TargetNamesMean(targets: seq<Target>, name: string)
    ensures name in TargetNames(targets) <==>
            exists i :: 0 <= i < |targets| && (targets[i] == Name(name) || (targets[i].Pattern? && name in targets[i].names))
  {
    if targets != [] {
      var rest := targets[1..];
      TargetNamesMean(rest, name);
      assert forall i :: 0 <= i < |rest| ==> rest[i] == targets[i + 1];
      if i :| 0 <= i < |targets| && (targets[i] == Name(name) || (targets[i].Pattern? && name in targets[i].names)) {
        if i > 0 { assert rest[i - 1] == targets[i]; }
      }
    }
  }

  // A statement's walk meets its targets' names and the other names it mentions, and nothing else.
  lemma WalkMeans(s: Statement, name: string)
    ensures name in Walk(s) <==>
            || name in s.names
            || (s.Assign? && exists t :: t in s.targets && (t == Name(name) || (t.Pattern? && name in t.names)))
            || (s.AnnAssign? && (s.target == Name(name) || (s.target.Pattern? && name in s.target.names)))
  {
    hide TargetNames;
    match s
    case Assign(targets, _) =>
      TargetNamesMean(targets, name);
      assert forall i :: 0 <= i < |targets| ==> targets[i] in targets;
    case AnnAssign(target, _) =>
      TargetNamesMean([target], name);
      assert [target][0] == target;
    case _ =>
  }
}
