/** The bounded evaluator of integer constants, with its guard against alias cycles. */
module Limits {
  import opened Prelude
  import opened Reach

  datatype Op = Add | Sub | Mult | LShift | Unsupported

  // A parsed expression; `Other` is every construct the evaluator refuses.
  datatype Expr = Int(value: int) | Name(id: string) | Bin(op: Op, left: Expr, right: Expr) | Other

  // An expression's text length and its parse, `None` when it does not parse.
  datatype Source = Source(length: nat, tree: Option<Expr>)

  type Constants = map<string, Source>

  datatype Fault = TooLong | Unparsed | NotBounded | ShiftTooFar | OutOfRange

  const LIMIT: int := 0x8000_0000_0000_0000

  function Pow2(n: nat): int { if n == 0 then 1 else 2 * Pow2(n - 1) }

  function Apply(op: Op, left: int, right: int): Result<int, Fault> {
    match op
    case Add => Ok(left + right)
    case Sub => Ok(left - right)
    case Mult => Ok(left * right)
    case LShift => if 0 <= right <= 63 then Ok(left * Pow2(right)) else Err(ShiftTooFar)
    case Unsupported => Err(NotBounded)
  }

  function Ranged(value: int): Result<int, Fault> {
    if 0 <= value <= LIMIT then Ok(value) else Err(OutOfRange)
  }

  function IntegerExpression(source: Source, constants: Constants, active: set<string>): Result<int, Fault>
    decreases constants.Keys - active, 1
  {
    if source.length > 512 || |active| > 64 then Err(TooLong)
    else if source.tree.None? then Err(Unparsed)
    else Visit(source.tree.value, constants, active)
  }

  function Visit(node: Expr, constants: Constants, active: set<string>): Result<int, Fault>
    decreases constants.Keys - active, 0, node
  {
    match node
    case Int(value) => Ranged(value)
    case Name(id) =>
      if id in constants && id !in active then
        match IntegerExpression(constants[id], constants, active + {id})
        case Err(e) => Err(e)
        case Ok(value) => Ranged(value)
      else Err(NotBounded)
    case Bin(op, l, r) => (
      if op == Unsupported then Err(NotBounded) else
        match Visit(l, constants, active)
        case Err(e) => Err(e)
        case Ok(left) => (
          match Visit(r, constants, active)
          case Err(e) => Err(e)
          case Ok(right) => (
            match Apply(op, left, right)
            case Err(e) => Err(e)
            case Ok(value) => Ranged(value))))
    case Other => Err(NotBounded)
  }

  /* ---- Expansions ---- */

  // An expression with every constant replaced by its own expansion: plain arithmetic.
  datatype Expansion = Lit(value: int) | Named(id: string, body: Expansion) | Node(op: Op, left: Expansion, right: Expansion)

  predicate Expands(constants: Constants, node: Expr, d: Expansion)
    decreases d, 0
  {
    match d
    case Lit(value) => node == Int(value)
    case Named(id, body) => node == Name(id) && id in constants && ExpandsSource(constants, constants[id], body)
    case Node(op, l, r) => node.Bin? && node.op == op && Expands(constants, node.left, l) && Expands(constants, node.right, r)
  }

  predicate ExpandsSource(constants: Constants, source: Source, d: Expansion)
    decreases d, 1
  {
    source.length <= 512 && source.tree.Some? && Expands(constants, source.tree.value, d)
  }

  // Ordinary integer arithmetic.
  function Value(d: Expansion): int {
    match d
    case Lit(value) => value
    case Named(_, body) => Value(body)
    case Node(op, l, r) =>
      match op
      case Add => Value(l) + Value(r)
      case Sub => Value(l) - Value(r)
      case Mult => Value(l) * Value(r)
      case LShift => Value(l) * Pow2(if Value(r) >= 0 then Value(r) else 0)
      case Unsupported => 0
  }

  // Every intermediate value is in range, every operator supported and every shift small.
  predicate Bounded(d: Expansion) {
    && 0 <= Value(d) <= 9223372036854775808
    && match d
       case Lit(_) => true
       case Named(_, body) => Bounded(body)
       case Node(op, l, r) => op != Unsupported && Bounded(l) && Bounded(r) && (op == LShift ==> Value(r) <= 63)
  }

  // How deep constants stand inside constants.
  function Depth(d: Expansion): nat {
    match d
    case Lit(_) => 0
    case Named(_, body) => 1 + Depth(body)
    case Node(_, l, r) => if Depth(l) < Depth(r) then Depth(r) else Depth(l)
  }

  function Size(d: Expansion): nat {
    match d
    case Lit(_) => 1
    case Named(_, body) => 1 + Size(body)
    case Node(_, l, r) => 1 + Size(l) + Size(r)
  }

  lemma {:induction false} ExpansionUnique(constants: Constants, node: Expr, d: Expansion, e: Expansion)
    requires Expands(constants, node, d) && Expands(constants, node, e)
    ensures d == e
    decreases d
  {
    match d
    case Lit(_) =>
    case Named(id, body) => ExpansionUnique(constants, constants[id].tree.value, body, e.body);
    case Node(_, l, r) =>
      ExpansionUnique(constants, node.left, l, e.left);
      ExpansionUnique(constants, node.right, r, e.right);
  }

  /* ---- What an answer means ---- */

  ghost predicate Means(constants: Constants, node: Expr, room: int, v: int, d: Expansion) {
    Expands(constants, node, d) && Bounded(d) && Depth(d) <= room && Value(d) == v
  }

  lemma {:induction false} VisitExpands(node: Expr, constants: Constants, active: set<string>) returns (d: Expansion)
    requires Visit(node, constants, active).Ok? && |active| <= 64
    ensures Means(constants, node, 64 - |active|, Visit(node, constants, active).value, d)
    decreases constants.Keys - active, node
  {
    match node
    case Int(value) => d := Lit(value);
    case Name(id) =>
      var body := VisitExpands(constants[id].tree.value, constants, active + {id});
      assert |active + {id}| == |active| + 1;
      d := Named(id, body);
    case Bin(op, l, r) =>
      var left := VisitExpands(l, constants, active);
      var right := VisitExpands(r, constants, active);
      d := Node(op, left, right);
  }

  // No constant stands inside its own expansion, and none inside is in `active`.
  predicate Fresh(d: Expansion, active: set<string>) {
    match d
    case Lit(_) => true
    case Named(id, body) => id !in active && Fresh(body, active + {id})
    case Node(_, l, r) => Fresh(l, active) && Fresh(r, active)
  }

  // What is being expanded around `d` is larger than `d`.
  ghost predicate Around(constants: Constants, bodies: map<string, Expansion>, d: Expansion) {
    forall a :: a in bodies ==>
      a in constants && ExpandsSource(constants, constants[a], bodies[a]) && Size(bodies[a]) >= Size(d)
  }

  lemma {:induction false} ExpansionFresh(constants: Constants, node: Expr, d: Expansion, bodies: map<string, Expansion>)
    requires Expands(constants, node, d) && Around(constants, bodies, d)
    ensures Fresh(d, bodies.Keys)
    decreases d
  {
    match d
    case Lit(_) =>
    case Named(id, body) =>
      if id in bodies {
        ExpansionUnique(constants, constants[id].tree.value, body, bodies[id]);
        assert false;
      }
      ExpansionFresh(constants, constants[id].tree.value, body, bodies[id := body]);
      assert bodies[id := body].Keys == bodies.Keys + {id};
    case Node(_, l, r) =>
      ExpansionFresh(constants, node.left, l, bodies);
      ExpansionFresh(constants, node.right, r, bodies);
  }

  lemma {:induction false} ExpansionVisits(node: Expr, constants: Constants, active: set<string>, d: Expansion)
    requires Expands(constants, node, d) && Bounded(d) && Fresh(d, active) && |active| + Depth(d) <= 64
    ensures Visit(node, constants, active) == Ok(Value(d))
    decreases d
  {
    match d
    case Lit(_) =>
    case Named(id, body) => ExpansionVisits(constants[id].tree.value, constants, active + {id}, body);
    case Node(_, l, r) =>
      ExpansionVisits(node.left, constants, active, l);
      ExpansionVisits(node.right, constants, active, r);
  }

  ghost predicate HasValue(source: Source, constants: Constants, v: int) {
    exists d :: SourceMeans(source, constants, v, d)
  }

  // A finite expansion of plain arithmetic with value `v`, all of it in range, at most 64 deep.
  predicate SourceMeans(source: Source, constants: Constants, v: int, d: Expansion) {
    ExpandsSource(constants, source, d) && Bounded(d) && Depth(d) <= 64 && Value(d) == v
  }

  /**
   * The evaluator answers `v` exactly when expanding every constant ends, in plain arithmetic
   * of value `v` whose intermediate values all lie in range and whose aliases stand at most 64 deep.
   */
  lemma IntegerExpressionMeans(source: Source, constants: Constants, v: int)
    ensures IntegerExpression(source, constants, {}) == Ok(v) <==> HasValue(source, constants, v)
  {
    hide Expands, Bounded, Visit;
    if IntegerExpression(source, constants, {}) == Ok(v) {
      var d := VisitExpands(source.tree.value, constants, {});
      assert SourceMeans(source, constants, v, d);
    }
    if d :| SourceMeans(source, constants, v, d) {
      var none: map<string, Expansion> := map[];
      ExpansionFresh(constants, source.tree.value, d, none);
      assert none.Keys == {};
      ExpansionVisits(source.tree.value, constants, {}, d);
    }
  }

  // An answer does not depend on which constants are being expanded.
  lemma ActiveIrrelevant(source: Source, constants: Constants, active: set<string>)
    requires IntegerExpression(source, constants, active).Ok?
    ensures IntegerExpression(source, constants, {}) == IntegerExpression(source, constants, active)
  {
    hide Expands, Bounded, Visit;
    var d := VisitExpands(source.tree.value, constants, active);
    assert SourceMeans(source, constants, Value(d), d);
    IntegerExpressionMeans(source, constants, Value(d));
  }

  /* ---- Alias cycles ---- */

  function Mentions(node: Expr): set<string> {
    match node
    case Name(id) => {id}
    case Bin(_, l, r) => Mentions(l) + Mentions(r)
    case _ => {}
  }

  function MentionsOf(source: Source): set<string> {
    if source.tree.None? then {} else Mentions(source.tree.value)
  }

  ghost function Aliases(constants: Constants): Graph { map n | n in constants :: MentionsOf(constants[n]) }

  // A constant whose expansion is smaller than `size`.
  ghost predicate Smaller(constants: Constants, n: string, size: nat) {
    n in constants && exists d :: ExpandsSource(constants, constants[n], d) && Size(d) < size
  }

  lemma {:induction false} MentionsSmaller(constants: Constants, node: Expr, d: Expansion, n: string)
    requires Expands(constants, node, d) && n in Mentions(node)
    ensures Smaller(constants, n, Size(d))
    decreases d
  {
    match d
    case Lit(_) =>
    case Named(id, body) => assert ExpandsSource(constants, constants[n], body);
    case Node(_, l, r) =>
      if n in Mentions(node.left) {
        MentionsSmaller(constants, node.left, l, n);
        SmallerThan(constants, n, Size(l), Size(d));
      } else {
        MentionsSmaller(constants, node.right, r, n);
        SmallerThan(constants, n, Size(r), Size(d));
      }
  }

  lemma SmallerThan(constants: Constants, n: string, small: nat, size: nat)
    requires Smaller(constants, n, small) && small <= size
    ensures Smaller(constants, n, size)
  {
  }

  lemma ReachedSmaller(constants: Constants, node: Expr, d: Expansion, m: string, n: string)
    requires Expands(constants, node, d) && m in Mentions(node)
    requires n == m || Reaches(Aliases(constants), m, n)
    ensures Smaller(constants, n, Size(d))
  {
    hide Reaches, Expands, Size, Mentions, Smaller;
    MentionsSmaller(constants, node, d, m);
    if n != m {
      var size := Size(d);
      SmallerKnown(constants, m, size);
      var below := set k | k in constants && Smaller(constants, k, size);
      forall v, w | v in below && Edge(Aliases(constants), v, w) ensures w in below {
        StepsDown(constants, v, w, size);
      }
      ClosedReaches(Aliases(constants), below, m, n);
    }
  }

  lemma SmallerKnown(constants: Constants, n: string, size: nat)
    requires Smaller(constants, n, size)
    ensures n in constants
  {
  }

  lemma StepsDown(constants: Constants, v: string, w: string, size: nat)
    requires Smaller(constants, v, size) && Edge(Aliases(constants), v, w)
    ensures Smaller(constants, w, size) && w in constants
  {
    hide Expands, Size, Mentions;
    var d :| ExpandsSource(constants, constants[v], d) && Size(d) < size;
    MentionsSmaller(constants, constants[v].tree.value, d, w);
    SmallerThan(constants, w, Size(d), size);
  }

  lemma EdgeMentions(constants: Constants, n: string, m: string)
    requires Edge(Aliases(constants), n, m)
    ensures n in constants && m in MentionsOf(constants[n])
  {
  }

  lemma NoSelfAlias(constants: Constants, n: string, size: nat)
    requires Smaller(constants, n, size)
    ensures !Reaches(Aliases(constants), n, n)
  {
    hide Reaches, Expands, Size, Mentions;
    var d :| ExpandsSource(constants, constants[n], d) && Size(d) < size;
    var g := Aliases(constants);
    if Reaches(g, n, n) {
      FirstStep(g, n, n);
      var m :| Edge(g, n, m) && (m == n || Reaches(g, m, n));
      EdgeMentions(constants, n, m);
      ReachedSmaller(constants, constants[n].tree.value, d, m, n);
      var e :| ExpandsSource(constants, constants[n], e) && Size(e) < Size(d);
      ExpansionUnique(constants, constants[n].tree.value, d, e);
      assert false;
    }
  }

  // Every constant an answer rests on is defined and lies on no alias cycle, so any cycle raises.
  lemma AliasCycleRaises(source: Source, constants: Constants, active: set<string>, m: string, n: string)
    requires m in MentionsOf(source) && (n == m || Reaches(Aliases(constants), m, n))
    requires n !in constants || Reaches(Aliases(constants), n, n)
    ensures IntegerExpression(source, constants, active).Err?
  {
    hide Reaches, Expands, Mentions, Visit, Smaller;
    if IntegerExpression(source, constants, active).Ok? {
      var d := VisitExpands(source.tree.value, constants, active);
      ReachedSmaller(constants, source.tree.value, d, m, n);
      SmallerKnown(constants, n, Size(d));
      NoSelfAlias(constants, n, Size(d));
      assert false;
    }
  }

  // Shifting by one place doubles, and by two distances in turn adds them.
  lemma {:induction false} Pow2Means(m: nat, n: nat)
    ensures Pow2(0) == 1 && Pow2(1) == 2 && Pow2(m + n) == Pow2(m) * Pow2(n)
  {
    assert Pow2(1) == 2 * Pow2(0);
    if m > 0 {
      Pow2Means(m - 1, n);
      assert Pow2(m) == 2 * Pow2(m - 1) && Pow2(m + n) == 2 * Pow2(m - 1 + n);
    }
  }
}
