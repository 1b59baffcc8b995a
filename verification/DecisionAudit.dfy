/**
 * The audit of raw coverage decisions collected from measurement logs: which cells and
 * looks a family spent, and what an audit that finishes guarantees about them.
 */
module DecisionAudit {
  import opened Prelude
  import opened Decision
  import Tails

  datatype Fault =
    | Rejected(error: Error) | Confirmation | ForeignSource | UnknownGroup | BadContext | MixedProtocols
    | NoSidecar | ConflictingTally | ForeignRow | ForeignFamily | ChangedWeight | ChangedPValue
    | ChangedCompatibility | ChangedReplicates | ChangedObserved | CapExceeded | ConflictingLook
    | TallyMismatch | ConflictingRecord | UnboundRecord | ForeignRecord | NoSuccessor | IncompatibleFinal

  /* ---- Parsed log contents ---- */

  datatype Row = Row(
    test: string, name: string, nominal: real, recordId: Option<string>,
    gridPoint: int, measuredAt: string, protocol: Verdict)

  datatype Record = Record(
    id: string, protocol: Option<Verdict>, role: string, measuredAt: Option<string>, gridPoint: Option<int>,
    nominal: real, observed: real, replicates: int)

  datatype Context = Context(config: Config, measuredAt: string, gridPoint: int)

  datatype Tally = Tally(
    key: string, covered: int, scored: int, skipped: int, mapEnd: Option<int>, context: Option<Context>)

  // `marked` says that the text mentions a decision; `recheck` that it holds a recheck line.
  datatype Log = Log(
    name: string, marked: bool, stamps: set<string>, contexts: seq<Config>, raw: seq<Row>,
    records: seq<Record>, sidecar: Option<seq<Tally>>, recheck: bool, requests: set<string>)

  // `keyText` renders a tally's key from a test, a name and a nominal probability.
  datatype Frame = Frame(
    sha: string, config: Config, groups: set<string>, keyText: (string, string, real) -> string)

  datatype Key = Key(test: string, name: string, nominal: real, recordId: Option<string>)
  datatype Cell = Cell(group: string, point: int, key: Key)
  datatype Slot = Slot(cell: Cell, planned: int)

  /* ---- File names ---- */

  predicate EndsWith(s: string, end: string) { |end| <= |s| && s[|s| - |end|..] == end }

  function Strip(s: string, end: string): string {
    if EndsWith(s, end) then s[..|s| - |end|] else s
  }

  predicate Confirming(name: string) { EndsWith(name, ".confirm.log") || EndsWith(name, ".confirm.recheck.log") }

  function Stem(name: string): string { Strip(Strip(name, ".log"), ".recheck") }

  predicate Pointed(stem: string) {
    |stem| >= 4 && stem[|stem| - 3] == '.' && stem[|stem| - 2] == 'p' && '0' <= stem[|stem| - 1] <= '2'
  }

  function Group(name: string): string {
    var stem := Stem(name);
    if Pointed(stem) then stem[..|stem| - 3] else stem
  }

  function Point(name: string): int {
    var stem := Stem(name);
    if Pointed(stem) then stem[|stem| - 1] as int - '0' as int else 1
  }

  function Slug(text: string): string {
    seq(|text|, i requires 0 <= i < |text| => if text[i] in " /:" then '_' else text[i])
  }

  function Slugs(labels: seq<string>): set<string> { set i | 0 <= i < |labels| :: Slug(labels[i]) }

  // What follows the last "::" at or before index `i`.
  function PartAfter(test: string, i: nat): string
    requires i + 1 < |test|
  {
    if test[i] == ':' && test[i + 1] == ':' then test[i + 2..]
    else if i == 0 then test
    else PartAfter(test, i - 1)
  }

  function LastPart(test: string): string {
    if |test| < 2 then test else PartAfter(test, |test| - 2)
  }

  /* ---- One decision ---- */

  function Abs(x: real): real { if x < 0.0 then -x else x }

  predicate Close(x: real, y: real, rel: real, abs: real) {
    Abs(x - y) <= Abs(rel * y) || Abs(x - y) <= Abs(rel * x) || Abs(x - y) <= abs
  }

  function ValidateDecision(
    value: Verdict, nominal: real, observed: Option<real>, replicates: Option<int>, expected: Config)
    : Result<Verdict, Fault>
  {
    var config := value.config;
    if ValidateConfig(config).Err? then Err(Rejected(ValidateConfig(config).error))
    else if config != expected then Err(ForeignFamily)
    else
      var r := Evaluate(config, value.planned, value.scored, value.covered, nominal, value.lowerOnly, Tails.EPS);
      EvaluateMeans(config, value.planned, value.scored, value.covered, nominal, value.lowerOnly, Tails.EPS);
      if r.Err? then Err(Rejected(r.error))
      else if value.weight != r.value.weight then Err(ChangedWeight)
      else if !Close(value.pValue, r.value.pValue, 5e-9, 2e-13) then Err(ChangedPValue)
      else if value.compatible != r.value.compatible then Err(ChangedCompatibility)
      else if replicates.Some? && replicates.value != value.scored then Err(ChangedReplicates)
      else if observed.Some? && !Close(observed.value, value.covered as real / value.scored as real, 0.0, 2e-13) then
        Err(ChangedObserved)
      else Ok(r.value)
  }

  // What a row's decision reproduces to.
  function Reproduced(config: Config, row: Row): Verdict {
    match ValidateDecision(row.protocol, row.nominal, None, None, config)
    case Ok(value) => value
    case Err(_) => row.protocol
  }

  /* ---- What a good log is ---- */

  predicate Unconflicting(tallies: seq<Tally>) {
    forall i, j :: 0 <= i < j < |tallies| && tallies[i].key == tallies[j].key ==> tallies[i] == tallies[j]
  }

  predicate TallyAgrees(frame: Frame, point: int, tally: Tally, value: Verdict) {
    && tally.context == Some(Context(frame.config, frame.sha, point))
    && tally.covered == value.covered
    && tally.scored + tally.skipped == value.scored
    && (tally.mapEnd == Some(value.planned) || (tally.mapEnd.None? && value.scored == value.planned))
  }

  predicate RowGood(frame: Frame, log: Log, row: Row) {
    && row.gridPoint == Point(log.name) && row.measuredAt == frame.sha
    && ValidateDecision(row.protocol, row.nominal, None, None, frame.config).Ok?
    && log.sidecar.Some?
    && exists t :: t in log.sidecar.value
                   && t.key == frame.keyText(row.test, row.name, row.nominal)
                   && TallyAgrees(frame, row.gridPoint, t, Reproduced(frame.config, row))
  }

  // The decision the first `m` rows bind to a record: the last one that names it.
  function Bound(rows: seq<Row>, m: nat, id: string): Option<Verdict>
    requires m <= |rows|
  {
    if m == 0 then None
    else if rows[m - 1].recordId == Some(id) then Some(rows[m - 1].protocol)
    else Bound(rows, m - 1, id)
  }

  predicate Rebinds(config: Config, rows: seq<Row>, m: nat)
    requires m < |rows|
  {
    rows[m].recordId.Some? ==>
      var was := Bound(rows, m, rows[m].recordId.value);
      was.None? || was.value == Reproduced(config, rows[m])
  }

  predicate RecordGood(frame: Frame, log: Log, record: Record) {
    || (record.protocol.None? && record.role == "named_boundary")
    || (&& record.protocol.Some?
        && Bound(log.raw, |log.raw|, record.id) == record.protocol
        && record.measuredAt == Some(frame.sha) && record.gridPoint == Some(Point(log.name))
        && ValidateDecision(record.protocol.value, record.nominal, Some(record.observed),
                            Some(record.replicates), frame.config).Ok?)
  }

  predicate HeaderGood(frame: Frame, log: Log) {
    && !Confirming(log.name) && log.stamps == {frame.sha}
    && Group(log.name) in frame.groups
    && log.contexts == [frame.config]
    && (forall r :: r in log.records && r.protocol.None? ==> r.role == "named_boundary")
    && (log.raw != [] ==> log.sidecar.Some? && Unconflicting(log.sidecar.value))
  }

  predicate LogGood(frame: Frame, log: Log) {
    && HeaderGood(frame, log)
    && (forall i :: 0 <= i < |log.raw| ==> RowGood(frame, log, log.raw[i]) && Rebinds(frame.config, log.raw, i))
    && (forall i :: 0 <= i < |log.records| ==> RecordGood(frame, log, log.records[i]))
  }

  /* ---- What a good collection of decisions is ---- */

  datatype Item = Item(slot: Slot, value: Verdict, requested: bool)

  predicate Requested(log: Log, test: string) {
    if log.requests == {} then log.recheck else test in log.requests || LastPart(test) in log.requests
  }

  function ItemOf(config: Config, log: Log, row: Row): Item {
    var value := Reproduced(config, row);
    Item(Slot(Cell(Group(log.name), Point(log.name), Key(row.test, row.name, row.nominal, row.recordId)), value.planned),
         value, Requested(log, row.test))
  }

  // The decisions of the logs before `a` and of the first `b` rows of log `a`.
  ghost function Items(config: Config, logs: seq<Log>, a: nat, b: nat): set<Item> {
    set x, i | 0 <= x < |logs| && 0 <= i < |logs[x].raw| && (x < a || (x == a && i < b)) ::
      ItemOf(config, logs[x], logs[x].raw[i])
  }

  ghost function AllItems(config: Config, logs: seq<Log>): set<Item> { Items(config, logs, |logs|, 0) }

  ghost function KeysAt(items: set<Item>, group: string, point: int): set<Key> {
    set it | it in items && it.slot.cell.group == group && it.slot.cell.point == point :: it.slot.cell.key
  }

  ghost predicate WithinCap(items: set<Item>, cap: int) {
    forall it :: it in items ==> |KeysAt(items, it.slot.cell.group, it.slot.cell.point)| <= cap
  }

  ghost predicate OneValuePerLook(items: set<Item>) {
    forall x, y :: x in items && y in items && x.slot == y.slot ==> x.value == y.value
  }

  ghost predicate LaterLook(items: set<Item>, slot: Slot) {
    exists it :: it in items && it.slot.cell == slot.cell && it.slot.planned > slot.planned
  }

  ghost predicate RechecksAnswered(items: set<Item>) {
    forall it :: it in items && it.requested ==> LaterLook(items, it.slot)
  }

  // Every recordless cell's last look is compatible.
  ghost predicate FinalsCompatible(items: set<Item>) {
    forall it :: it in items && it.slot.cell.key.recordId.None? && !LaterLook(items, it.slot) ==> it.value.compatible
  }

  ghost predicate Accepted(frame: Frame, logs: seq<Log>) {
    var items := AllItems(frame.config, logs);
    && (forall x :: 0 <= x < |logs| ==> LogGood(frame, logs[x]))
    && WithinCap(items, frame.config.cap)
    && OneValuePerLook(items)
    && RechecksAnswered(items)
    && FinalsCompatible(items)
  }

  /* ---- The audit ---- */

  // The collections the audit fills while it reads rows.
  datatype Books = Books(cells: map<(string, int), set<Key>>, looks: map<Slot, Verdict>, requested: set<Slot>)

  ghost predicate Taken(items: set<Item>, slot: Slot) { exists it :: it in items && it.slot == slot }

  ghost predicate Asked(items: set<Item>, slot: Slot) { exists it :: it in items && it.slot == slot && it.requested }

  ghost predicate CellsKept(items: set<Item>, cells: map<(string, int), set<Key>>) {
    && (forall g, p :: (g, p) in cells ==> cells[(g, p)] == KeysAt(items, g, p))
    && (forall it :: it in items ==> (it.slot.cell.group, it.slot.cell.point) in cells)
  }

  ghost predicate LooksKept(items: set<Item>, looks: map<Slot, Verdict>) {
    && (forall it :: it in items ==> it.slot in looks && looks[it.slot] == it.value)
    && (forall s :: s in looks ==> Taken(items, s))
  }

  ghost predicate RequestsKept(items: set<Item>, requested: set<Slot>) {
    && (forall it :: it in items && it.requested ==> it.slot in requested)
    && (forall s :: s in requested ==> Asked(items, s))
  }

  ghost predicate Collected(items: set<Item>, books: Books) {
    CellsKept(items, books.cells) && LooksKept(items, books.looks) && RequestsKept(items, books.requested)
  }

  ghost predicate StatesKept(tallies: seq<Tally>, m: nat, states: map<string, Tally>) {
    && m <= |tallies|
    && (forall i :: 0 <= i < m ==> tallies[i].key in states && states[tallies[i].key] == tallies[i])
    && (forall k :: k in states ==> states[k].key == k && states[k] in tallies[..m])
  }

  method ReadTallies(tallies: seq<Tally>) returns (ok: bool, states: map<string, Tally>)
    ensures ok <==> Unconflicting(tallies)
    ensures ok ==> StatesKept(tallies, |tallies|, states)
  {
    hide StatesKept, Unconflicting;
    states := map[];
    TalliesStart(tallies);
    for m := 0 to |tallies|
      invariant StatesKept(tallies, m, states) && Unconflicting(tallies[..m])
    {
      var t := tallies[m];
      TallyNext(tallies, m, states);
      if t.key in states && states[t.key] != t {
        return false, states;
      }
      states := states[t.key := t];
    }
    ok := true;
    assert tallies[..|tallies|] == tallies;
  }

  lemma TalliesStart(tallies: seq<Tally>)
    ensures StatesKept(tallies, 0, map[]) && Unconflicting(tallies[..0])
  {
  }

  lemma TallyNext(tallies: seq<Tally>, m: nat, states: map<string, Tally>)
    requires m < |tallies| && StatesKept(tallies, m, states) && Unconflicting(tallies[..m])
    ensures var t := tallies[m];
            if t.key in states && states[t.key] != t then !Unconflicting(tallies)
            else StatesKept(tallies, m + 1, states[t.key := t]) && Unconflicting(tallies[..m + 1])
  {
  }

  ghost predicate BoundKept(rows: seq<Row>, m: nat, bound: map<string, Verdict>) {
    && m <= |rows|
    && forall id :: Bound(rows, m, id) == if id in bound then Some(bound[id]) else None
  }

  ghost predicate Fits(items: set<Item>, it: Item, cap: int) {
    && |KeysAt(items + {it}, it.slot.cell.group, it.slot.cell.point)| <= cap
    && forall y :: y in items && y.slot == it.slot ==> y.value == it.value
  }
}
