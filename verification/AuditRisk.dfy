/** What an audit that finishes guarantees: the decisions it read never overspend the family's risk. */
module AuditRisk {
  import opened Prelude
  import opened FiniteSums
  import opened Decision
  import Tails
  import opened DecisionAudit

  // A look's share of the family's risk.
  function LookRisk(config: Config, planned: int): real
    requires config.cells > 0
  {
    Cutoff(if planned == 400 then 0.5 else 0.25, config.cells)
  }

  // The distinct decisions and the distinct cells of the logs.
  ghost function Slots(items: set<Item>): set<Slot> { set it | it in items :: it.slot }

  ghost function CellsOf(items: set<Item>): set<Cell> { set it | it in items :: it.slot.cell }

  ghost function RiskOf(config: Config): Slot -> real
    requires config.cells > 0
  {
    (s: Slot) => LookRisk(config, s.planned)
  }

  ghost predicate Genuine(config: Config, it: Item) {
    var v := it.value;
    && it.slot.planned == v.planned
    && Evaluate(config, v.planned, v.scored, v.covered, it.slot.cell.key.nominal, v.lowerOnly, Tails.EPS) == Ok(v)
  }

  // Every collected decision is the protocol's own decision on its counts, in a slot of the family.
  lemma ItemGenuine(frame: Frame, logs: seq<Log>, it: Item)
    requires Accepted(frame, logs) && it in AllItems(frame.config, logs)
    ensures Genuine(frame.config, it) && ValidateConfig(frame.config).Ok?
    ensures it.slot.planned in {400, 2000, 20000}
    ensures it.slot.cell.point in {0, 1, 2} && it.slot.cell.group in frame.groups
  {
    hide WithinCap, OneValuePerLook, RechecksAnswered, FinalsCompatible, Evaluate, ValidateConfig, Close, TallyAgrees,
         HeaderGood, Rebinds, RecordGood;
    var x, i :| 0 <= x < |logs| && 0 <= i < |logs[x].raw| && it == ItemOf(frame.config, logs[x], logs[x].raw[i]);
    assert RowGood(frame, logs[x], logs[x].raw[i]);
    HeaderPlace(frame, logs[x]);
    var v := logs[x].raw[i].protocol;
    EvaluateMeans(v.config, v.planned, v.scored, v.covered, logs[x].raw[i].nominal, v.lowerOnly, Tails.EPS);
    EvaluateKeeps(v.config, v.planned, v.scored, v.covered, logs[x].raw[i].nominal, v.lowerOnly, Tails.EPS);
  }

  lemma HeaderPlace(frame: Frame, log: Log)
    requires HeaderGood(frame, log)
    ensures Group(log.name) in frame.groups && Point(log.name) in {0, 1, 2}
  {
  }

  lemma EvaluateKeeps(config: Config, planned: int, scored: int, covered: int, nominal: real, lowerOnly: bool, eps: real)
    ensures var r := Evaluate(config, planned, scored, covered, nominal, lowerOnly, eps);
            r.Ok? ==>
              && r.value.planned == planned && r.value.scored == scored && r.value.covered == covered
              && r.value.lowerOnly == lowerOnly
  {
  }

  lemma {:induction false} SlugsFew(labels: seq<string>)
    ensures |Slugs(labels)| <= |labels|
  {
    hide Slug;
    if labels != [] {
      var rest := labels[..|labels| - 1];
      SlugsFew(rest);
      assert Slugs(labels) == Slugs(rest) + {Slug(labels[|labels| - 1])};
    } else {
      assert Slugs(labels) == {};
    }
  }

  // At most three points for each group, at most `cap` cells for each group and point.
  lemma CellsFew(items: set<Item>, groups: set<string>, cap: nat)
    requires WithinCap(items, cap)
    requires forall it :: it in items ==> it.slot.cell.group in groups && it.slot.cell.point in {0, 1, 2}
    ensures |CellsOf(items)| <= |groups| * 3 * cap
  {
    hide KeysAt;
    var places := set c | c in CellsOf(items) :: (c.group, c.point);
    forall y | y in places ensures |Fibre(CellsOf(items), PlaceOf, y)| <= cap {
      PlaceFew(items, y, cap);
    }
    SizeByFibres(CellsOf(items), places, PlaceOf, cap);
    forall g | g in groups ensures |Fibre(places, GroupOf, g)| <= 3 {
      SizeImage(Fibre(places, GroupOf, g), {0, 1, 2}, (y: (string, int)) => y.1);
    }
    SizeByFibres(places, groups, GroupOf, 3);
    Multiply(|places|, |groups| * 3, cap);
  }

  lemma Multiply(x: nat, y: nat, c: nat)
    requires x <= y
    ensures x * c <= y * c
  {
  }

  function PlaceOf(c: Cell): (string, int) { (c.group, c.point) }

  function GroupOf(y: (string, int)): string { y.0 }

  lemma PlaceFew(items: set<Item>, y: (string, int), cap: nat)
    requires WithinCap(items, cap)
    ensures |Fibre(CellsOf(items), PlaceOf, y)| <= cap
  {
    var here := Fibre(CellsOf(items), PlaceOf, y);
    if c :| c in here {
      var it :| it in items && it.slot.cell == c;
      assert |KeysAt(items, y.0, y.1)| <= cap;
      forall d | d in here ensures d.key in KeysAt(items, y.0, y.1) {
        var x :| x in items && x.slot.cell == d;
      }
      SizeImage(here, KeysAt(items, y.0, y.1), (d: Cell) => d.key);
    } else {
      assert here == {};
    }
  }

  // A cell's three looks spend a cell's share.
  lemma CellShare(config: Config, slots: set<Slot>, cell: Cell)
    requires config.cells > 0
    requires forall s :: s in slots ==> s.planned in {400, 2000, 20000}
    ensures Total(Fibre(slots, CellIn, cell), RiskOf(config)) <= Cutoff(1.0, config.cells)
  {
    hide Total;
    var a, b, c := Slot(cell, 400), Slot(cell, 2000), Slot(cell, 20000);
    var f := RiskOf(config);
    var three := {a, b, c};
    SharesSum(config.cells);
    TotalSubset(Fibre(slots, CellIn, cell), three, f);
    TotalRemove(three, f, a);
    assert three - {a} == {b, c};
    TotalRemove({b, c}, f, b);
    assert {b, c} - {b} == {c};
    TotalRemove({c}, f, c);
    assert {c} - {c} == {};
    TotalSubset({}, {}, f);
    TotalEmpty(f);
  }

  lemma TotalEmpty(f: Slot -> real)
    ensures Total({}, f) == 0.0
  {
  }

  lemma SharesSum(cells: int)
    requires cells > 0
    ensures Cutoff(0.5, cells) + Cutoff(0.25, cells) + Cutoff(0.25, cells) == Cutoff(1.0, cells)
    ensures Cutoff(0.5, cells) >= 0.0 && Cutoff(0.25, cells) >= 0.0
  {
  }

  function CellIn(s: Slot): Cell { s.cell }

  /**
   * An accepted audit whose family has a group for every roster label: the distinct decisions
   * of its logs spend at most the family's risk, over at most the family's cells.
   */
  lemma NeverOverspends(frame: Frame, labels: seq<string>, logs: seq<Log>)
    requires frame.groups == Slugs(labels) && |labels| == frame.config.groups
    requires Accepted(frame, logs) && frame.config.cells > 0
    ensures |CellsOf(AllItems(frame.config, logs))| <= frame.config.cells
    ensures Total(Slots(AllItems(frame.config, logs)), RiskOf(frame.config)) <= ALPHA
  {
    hide Accepted, Total, Slugs, AllItems, Genuine;
    var config, items := frame.config, AllItems(frame.config, logs);
    if it :| it in items {
      ItemGenuine(frame, logs, it);
      forall it | it in items
        ensures it.slot.planned in {400, 2000, 20000}
        ensures it.slot.cell.point in {0, 1, 2} && it.slot.cell.group in frame.groups
      {
        ItemGenuine(frame, logs, it);
      }
      CapKept(frame, logs);
      ValidCells(config);
      FamilySpends(config, items, frame.groups, labels);
    } else {
      assert items == {};
      TotalEmpty(RiskOf(config));
      assert Slots(items) == {} && CellsOf(items) == {};
    }
  }

  lemma CapKept(frame: Frame, logs: seq<Log>)
    requires Accepted(frame, logs)
    ensures WithinCap(AllItems(frame.config, logs), frame.config.cap)
  {
  }

  lemma ValidCells(config: Config)
    requires ValidateConfig(config).Ok?
    ensures config.cap == 256 && config.cells == config.groups * 3 * 256
  {
  }

  lemma FamilySpends(config: Config, items: set<Item>, groups: set<string>, labels: seq<string>)
    requires WithinCap(items, config.cap) && config.cap == 256 && groups == Slugs(labels)
    requires config.cells == config.groups * 3 * 256 && config.cells > 0 && |labels| == config.groups
    requires forall it :: it in items ==> it.slot.planned in {400, 2000, 20000}
    requires forall it :: it in items ==> it.slot.cell.group in groups && it.slot.cell.point in {0, 1, 2}
    ensures |CellsOf(items)| <= config.cells
    ensures Total(Slots(items), RiskOf(config)) <= ALPHA
  {
    hide WithinCap, Total, Times, Slugs, Cutoff;
    SlugsFew(labels);
    CellsFew(items, groups, 256);
    forall c | c in CellsOf(items)
      ensures Total(Fibre(Slots(items), CellIn, c), RiskOf(config)) <= Cutoff(1.0, config.cells)
    {
      CellShare(config, Slots(items), c);
    }
    TotalByFibres(Slots(items), CellsOf(items), CellIn, RiskOf(config), Cutoff(1.0, config.cells));
    WholeShare(|CellsOf(items)|, config.cells);
  }

  lemma WholeShare(count: nat, cells: nat)
    requires count <= cells && cells > 0
    ensures Times(count, Cutoff(1.0, cells)) <= ALPHA
  {
  }
}
