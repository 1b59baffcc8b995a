/**
 * The audit as it runs: one pass over the logs and their rows that fills the cells, looks
 * and requested rechecks, then one pass over what it collected.
 */
module AuditLoop {
  import opened Prelude
  import opened Decision
  import opened DecisionAudit
  import FiniteSums

  lemma KeysGrow(items: set<Item>, it: Item, group: string, point: int)
    ensures KeysAt(items + {it}, group, point) ==
            KeysAt(items, group, point)
            + (if it.slot.cell.group == group && it.slot.cell.point == point then {it.slot.cell.key} else {})
  {
  }

  lemma CellsAdd(items: set<Item>, cells: map<(string, int), set<Key>>, it: Item)
    requires CellsKept(items, cells)
    ensures var at := (it.slot.cell.group, it.slot.cell.point);
            var keys := (if at in cells then cells[at] else {}) + {it.slot.cell.key};
            keys == KeysAt(items + {it}, at.0, at.1) && CellsKept(items + {it}, cells[at := keys])
  {
  }

  lemma LooksAdd(items: set<Item>, looks: map<Slot, Verdict>, it: Item)
    requires LooksKept(items, looks)
    requires it.slot in looks ==> looks[it.slot] == it.value
    ensures LooksKept(items + {it}, looks[it.slot := it.value])
  {
  }

  lemma RequestsAdd(items: set<Item>, requested: set<Slot>, it: Item)
    requires RequestsKept(items, requested)
    ensures RequestsKept(items + {it}, if it.requested then requested + {it.slot} else requested)
  {
  }

  // One row: the checks that can raise, then the collections with the row added.
  method AuditRow(frame: Frame, log: Log, m: nat, states: map<string, Tally>,
                  bound: map<string, Verdict>, books: Books, ghost items: set<Item>)
    returns (fault: Option<Fault>, nowBound: map<string, Verdict>, nowBooks: Books)
    requires m < |log.raw| && log.sidecar.Some?
    requires Unconflicting(log.sidecar.value) && StatesKept(log.sidecar.value, |log.sidecar.value|, states)
    requires BoundKept(log.raw, m, bound) && Collected(items, books)
    ensures var it := ItemOf(frame.config, log, log.raw[m]);
            && (fault.None? <==>
                  && RowGood(frame, log, log.raw[m]) && Rebinds(frame.config, log.raw, m)
                  && Fits(items, it, frame.config.cap))
            && (fault.None? ==> BoundKept(log.raw, m + 1, nowBound) && Collected(items + {it}, nowBooks))
  {
    hide KeysAt, ValidateDecision, Requested, Group, Point, CellsKept, LooksKept, RequestsKept, TallyAgrees, Unconflicting;
    var row := log.raw[m];
    nowBound, nowBooks := bound, books;
    if row.gridPoint != Point(log.name) || row.measuredAt != frame.sha {
      return Some(ForeignRow), nowBound, nowBooks;
    }
    var r := ValidateDecision(row.protocol, row.nominal, None, None, frame.config);
    if r.Err? {
      return Some(r.error), nowBound, nowBooks;
    }
    var value := r.value;
    var key := Key(row.test, row.name, row.nominal, row.recordId);
    var at := (Group(log.name), Point(log.name));
    var slot := Slot(Cell(at.0, at.1, key), value.planned);
    ghost var it := ItemOf(frame.config, log, row);
    assert it == Item(slot, value, Requested(log, row.test));
    var cellset := (if at in books.cells then books.cells[at] else {}) + {key};
    CellsAdd(items, books.cells, it);
    if |cellset| > frame.config.cap {
      return Some(CapExceeded), nowBound, nowBooks;
    }
    LookConflict(items, books.looks, it);
    if slot in books.looks && books.looks[slot] != value {
      return Some(ConflictingLook), nowBound, nowBooks;
    }
    LooksAdd(items, books.looks, it);
    RequestsAdd(items, books.requested, it);
    nowBooks := Books(books.cells[at := cellset], books.looks[slot := value],
                      if Requested(log, row.test) then books.requested + {slot} else books.requested);
    var text := frame.keyText(row.test, row.name, row.nominal);
    TallyFound(log.sidecar.value, states, text);
    if text !in states || !TallyAgrees(frame, row.gridPoint, states[text], value) {
      return Some(TallyMismatch), nowBound, nowBooks;
    }
    if row.recordId.Some? {
      var id := row.recordId.value;
      assert Bound(log.raw, m, id) == if id in bound then Some(bound[id]) else None;
      if id in bound && bound[id] != value {
        return Some(ConflictingRecord), nowBound, nowBooks;
      }
      nowBound := bound[id := row.protocol];
    }
    fault := None;
  }

  lemma LookConflict(items: set<Item>, looks: map<Slot, Verdict>, it: Item)
    requires LooksKept(items, looks)
    ensures (it.slot in looks ==> looks[it.slot] == it.value)
            <==> forall y :: y in items && y.slot == it.slot ==> y.value == it.value
  {
  }

  lemma TallyFound(tallies: seq<Tally>, states: map<string, Tally>, text: string)
    requires StatesKept(tallies, |tallies|, states)
    ensures forall t :: t in tallies && t.key == text ==> text in states && states[text] == t
    ensures text in states ==> states[text] in tallies && states[text].key == text
  {
  }

  ghost function LogItems(config: Config, log: Log, b: nat): set<Item> {
    set i | 0 <= i < |log.raw| && i < b :: ItemOf(config, log, log.raw[i])
  }

  lemma KeysSubset(a: set<Item>, b: set<Item>, group: string, point: int)
    requires a <= b
    ensures KeysAt(a, group, point) <= KeysAt(b, group, point)
    ensures |KeysAt(a, group, point)| <= |KeysAt(b, group, point)|
  {
    FiniteSums.SizeSubset(KeysAt(a, group, point), KeysAt(b, group, point));
  }

  // A row that does not fit what came before it does not fit the whole collection.
  lemma MisfitSpreads(items: set<Item>, it: Item, all: set<Item>, cap: int)
    requires items + {it} <= all && !Fits(items, it, cap)
    ensures !WithinCap(all, cap) || !OneValuePerLook(all)
  {
    hide KeysAt;
    assert it in all;
    KeysSubset(items + {it}, all, it.slot.cell.group, it.slot.cell.point);
  }

  lemma FitKeepsCap(items: set<Item>, it: Item, cap: int)
    requires WithinCap(items, cap) && Fits(items, it, cap)
    ensures WithinCap(items + {it}, cap)
  {
    var both := items + {it};
    forall x | x in both ensures |KeysAt(both, x.slot.cell.group, x.slot.cell.point)| <= cap {
      KeysGrow(items, it, x.slot.cell.group, x.slot.cell.point);
    }
  }

  ghost predicate Sound(config: Config, items: set<Item>, books: Books) {
    Collected(items, books) && WithinCap(items, config.cap)
  }

  method AuditLog(frame: Frame, log: Log, books: Books, ghost items: set<Item>, ghost all: set<Item>)
    returns (fault: Option<Fault>, now: Books)
    requires Sound(frame.config, items, books)
    requires items + LogItems(frame.config, log, |log.raw|) <= all
    ensures fault.None? ==>
              LogGood(frame, log) && Sound(frame.config, items + LogItems(frame.config, log, |log.raw|), now)
    ensures fault.Some? ==>
              !LogGood(frame, log) || !WithinCap(all, frame.config.cap) || !OneValuePerLook(all)
  {
    hide HeaderGood, RowGood, Rebinds, RecordGood, Sound, WithinCap, OneValuePerLook, BoundKept, StatesKept, Unconflicting;
    now := books;
    fault := CheckHeader(frame, log);
    if fault.Some? {
      return;
    }
    var states := map[];
    if log.raw != [] {
      var ok;
      ok, states := ReadTallies(log.sidecar.value);
      if !ok {
        return Some(ConflictingTally), now;
      }
    }
    var bound;
    fault, bound, now := AuditRows(frame, log, states, books, items, all);
    if fault.Some? {
      return;
    }
    fault := CheckRecords(frame, log, bound);
  }

  ghost predicate RowsGood(frame: Frame, log: Log, m: nat)
    requires m <= |log.raw|
  {
    forall i :: 0 <= i < m ==> RowGood(frame, log, log.raw[i]) && Rebinds(frame.config, log.raw, i)
  }

  method AuditRows(frame: Frame, log: Log, states: map<string, Tally>, books: Books,
                   ghost items: set<Item>, ghost all: set<Item>)
    returns (fault: Option<Fault>, bound: map<string, Verdict>, now: Books)
    requires log.raw != [] ==>
               && log.sidecar.Some? && Unconflicting(log.sidecar.value)
               && StatesKept(log.sidecar.value, |log.sidecar.value|, states)
    requires Sound(frame.config, items, books)
    requires items + LogItems(frame.config, log, |log.raw|) <= all
    ensures fault.None? ==>
              && RowsGood(frame, log, |log.raw|)
              && BoundKept(log.raw, |log.raw|, bound)
              && Sound(frame.config, items + LogItems(frame.config, log, |log.raw|), now)
    ensures fault.Some? ==>
              !RowsGood(frame, log, |log.raw|) || !WithinCap(all, frame.config.cap) || !OneValuePerLook(all)
  {
    hide RowGood, Rebinds, Collected, WithinCap, OneValuePerLook, Fits, ItemOf, StatesKept, Unconflicting, LogItems, BoundKept;
    bound, now := map[], books;
    RowsStart(frame, log, items);
    for m := 0 to |log.raw|
      invariant BoundKept(log.raw, m, bound)
      invariant Sound(frame.config, items + LogItems(frame.config, log, m), now)
      invariant RowsGood(frame, log, m)
    {
      ghost var seen := items + LogItems(frame.config, log, m);
      ghost var it := ItemOf(frame.config, log, log.raw[m]);
      LogItemsStep(frame.config, log, m);
      fault, bound, now := AuditRow(frame, log, m, states, bound, now, seen);
      assert seen + {it} == items + LogItems(frame.config, log, m + 1);
      if fault.Some? {
        if !Fits(seen, it, frame.config.cap) {
          MisfitSpreads(seen, it, all, frame.config.cap);
        }
        return;
      }
      FitKeepsCap(seen, it, frame.config.cap);
    }
    fault := None;
  }

  lemma RowsStart(frame: Frame, log: Log, items: set<Item>)
    ensures BoundKept(log.raw, 0, map[])
    ensures items + LogItems(frame.config, log, 0) == items
  {
  }

  lemma LogItemsStep(config: Config, log: Log, m: nat)
    requires m < |log.raw|
    ensures LogItems(config, log, m + 1) == LogItems(config, log, m) + {ItemOf(config, log, log.raw[m])}
    ensures LogItems(config, log, m + 1) <= LogItems(config, log, |log.raw|)
  {
  }

  // The checks before the rows are read, tally conflicts aside.
  method CheckHeader(frame: Frame, log: Log) returns (fault: Option<Fault>)
    ensures HeaderGood(frame, log) ==> fault.None?
    ensures fault.None? && log.raw != [] ==> log.sidecar.Some?
    ensures fault.None? ==> (HeaderGood(frame, log) <==> log.raw == [] || Unconflicting(log.sidecar.value))
  {
    if Confirming(log.name) {
      return Some(Confirmation);
    }
    if log.stamps != {frame.sha} {
      return Some(ForeignSource);
    }
    if Group(log.name) !in frame.groups {
      return Some(UnknownGroup);
    }
    if log.contexts != [frame.config] {
      return Some(BadContext);
    }
    if exists r :: r in log.records && r.protocol.None? && r.role != "named_boundary" {
      return Some(MixedProtocols);
    }
    if log.raw != [] && log.sidecar.None? {
      return Some(NoSidecar);
    }
    fault := None;
  }

  method CheckRecords(frame: Frame, log: Log, bound: map<string, Verdict>) returns (fault: Option<Fault>)
    requires BoundKept(log.raw, |log.raw|, bound)
    ensures fault.None? <==> forall i :: 0 <= i < |log.records| ==> RecordGood(frame, log, log.records[i])
  {
    hide ValidateDecision, Point;
    for m := 0 to |log.records|
      invariant forall i :: 0 <= i < m ==> RecordGood(frame, log, log.records[i])
    {
      var record := log.records[m];
      if record.protocol.None? && record.role == "named_boundary" {
        continue;
      }
      assert Bound(log.raw, |log.raw|, record.id) == if record.id in bound then Some(bound[record.id]) else None;
      if record.protocol.None? || record.id !in bound || Some(bound[record.id]) != record.protocol {
        return Some(UnboundRecord);
      }
      if record.measuredAt != Some(frame.sha) || record.gridPoint != Some(Point(log.name)) {
        return Some(ForeignRecord);
      }
      var r := ValidateDecision(record.protocol.value, record.nominal, Some(record.observed),
                                Some(record.replicates), frame.config);
      if r.Err? {
        return Some(r.error);
      }
    }
    fault := None;
  }

  /* ---- All logs ---- */

  // What the audit returns: each log's rows, a later log of the same name winning.
  function Summary(logs: seq<Log>, m: nat): map<string, seq<Row>>
    requires m <= |logs|
  {
    if m == 0 then map[] else Summary(logs, m - 1)[logs[m - 1].name := logs[m - 1].raw]
  }

  lemma ItemsNext(config: Config, logs: seq<Log>, a: nat)
    requires a < |logs|
    ensures Items(config, logs, a, 0) + LogItems(config, logs[a], |logs[a].raw|) == Items(config, logs, a + 1, 0)
    ensures Items(config, logs, a + 1, 0) <= AllItems(config, logs)
  {
  }

  // No log mentions a decision.
  predicate Unmarked(logs: seq<Log>) { forall x :: 0 <= x < |logs| ==> !logs[x].marked }

  ghost predicate Audited(frame: Frame, logs: seq<Log>, r: Result<map<string, seq<Row>>, Fault>) {
    if Accepted(frame, logs) then r == Ok(Summary(logs, |logs|)) else r.Err?
  }

  /**
   * The whole audit.  It returns exactly when every log is good by itself and the decisions
   * they hold, taken together, keep the cap, agree with one another, answer every requested
   * recheck and end compatible where no record carries them.
   */
  method AuditLogs(
    logs: seq<Log>, sha: string, config: Config, labels: seq<string>, keyText: (string, string, real) -> string)
    returns (r: Result<map<string, seq<Row>>, Fault>)
    ensures (forall log :: log in logs ==> !log.marked) ==> r == Ok(map[])
    ensures (exists log :: log in logs && log.marked) ==> Audited(Frame(sha, config, Slugs(labels), keyText), logs, r)
  {
    hide Sound, LogGood, LogItems, Items, WithinCap, OneValuePerLook, RechecksAnswered, FinalsCompatible, Collected,
         Slugs;
    assert Unmarked(logs) <==> forall log :: log in logs ==> !log.marked;
    if Unmarked(logs) {
      return Ok(map[]);
    }
    var frame := Frame(sha, config, Slugs(labels), keyText);
    var books := Books(map[], map[], {});
    var summary := map[];
    ghost var all := AllItems(config, logs);
    ItemsStart(config, logs);
    for a := 0 to |logs|
      invariant Sound(config, Items(config, logs, a, 0), books)
      invariant summary == Summary(logs, a)
      invariant forall x :: 0 <= x < a ==> LogGood(frame, logs[x])
    {
      var fault;
      ItemsNext(config, logs, a);
      fault, books := AuditLog(frame, logs[a], books, Items(config, logs, a, 0), all);
      if fault.Some? {
        return Err(fault.value);
      }
      summary := summary[logs[a].name := logs[a].raw];
    }
    SoundMeans(config, all, books);
    var fault := CheckRequested(books, all);
    if fault.Some? {
      return Err(fault.value);
    }
    fault := CheckFinal(books, all);
    if fault.Some? {
      return Err(fault.value);
    }
    r := Ok(summary);
  }

  lemma ItemsStart(config: Config, logs: seq<Log>)
    ensures Items(config, logs, 0, 0) == {}
    ensures Sound(config, {}, Books(map[], map[], {}))
  {
  }

  lemma SoundMeans(config: Config, items: set<Item>, books: Books)
    requires Sound(config, items, books)
    ensures Collected(items, books) && WithinCap(items, config.cap) && OneValuePerLook(items)
  {
  }

  method CheckRequested(books: Books, ghost items: set<Item>) returns (fault: Option<Fault>)
    requires Collected(items, books)
    ensures fault.None? <==> RechecksAnswered(items)
  {
    hide CellsKept;
    var todo := books.requested;
    while todo != {}
      invariant todo <= books.requested
      invariant forall s :: s in books.requested - todo ==> LaterLook(items, s)
      decreases todo
    {
      var slot :| slot in todo;
      LaterFound(items, books.looks, slot);
      if !exists s :: s in books.looks && s.cell == slot.cell && s.planned > slot.planned {
        assert Asked(items, slot);
        return Some(NoSuccessor);
      }
      todo := todo - {slot};
    }
    fault := None;
  }

  lemma LaterFound(items: set<Item>, looks: map<Slot, Verdict>, slot: Slot)
    requires LooksKept(items, looks)
    ensures LaterLook(items, slot) <==> exists s :: s in looks && s.cell == slot.cell && s.planned > slot.planned
  {
  }

  // The last look of every cell among `done`.
  ghost predicate FinalKept(looks: map<Slot, Verdict>, done: set<Slot>, final: map<Cell, Slot>) {
    && (forall c :: c in final ==> final[c] in done && final[c].cell == c)
    && (forall s :: s in done ==> s.cell in final && s.planned <= final[s.cell].planned)
  }

  method CheckFinal(books: Books, ghost items: set<Item>) returns (fault: Option<Fault>)
    requires Collected(items, books)
    ensures fault.None? <==> FinalsCompatible(items)
  {
    hide CellsKept, RequestsKept;
    var final: map<Cell, Slot> := map[];
    var todo := books.looks.Keys;
    while todo != {}
      invariant todo <= books.looks.Keys
      invariant FinalKept(books.looks, books.looks.Keys - todo, final)
      decreases todo
    {
      var slot :| slot in todo;
      if slot.cell !in final || final[slot.cell].planned < slot.planned {
        final := final[slot.cell := slot];
      }
      todo := todo - {slot};
    }
    assert books.looks.Keys - {} == books.looks.Keys;
    FinalsMean(items, books.looks, final);
    if exists c :: c in final && c.key.recordId.None? && !books.looks[final[c]].compatible {
      return Some(IncompatibleFinal);
    }
    fault := None;
  }

  lemma FinalsMean(items: set<Item>, looks: map<Slot, Verdict>, final: map<Cell, Slot>)
    requires LooksKept(items, looks) && FinalKept(looks, looks.Keys, final)
    ensures FinalsCompatible(items) <==>
            forall c :: c in final && c.key.recordId.None? ==> looks[final[c]].compatible
  {
  }
}
