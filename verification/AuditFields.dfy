/** What the audit asks of a log, over the raw fields of its rows, tallies and records. */
module AuditFields {
  import opened Prelude
  import opened Decision
  import opened DecisionAudit
  import opened AuditLoop
  import PValues
  import LastCut
  import Tails

  /* ---- File names ---- */

  ghost predicate Tailed(name: string, end: string) { exists front: string :: name == front + end }

  // `rest` is `name` without `end`, if it ends so.
  ghost predicate Without(name: string, end: string, rest: string) {
    name == rest + end || (name == rest && !Tailed(name, end))
  }

  // A group, a point's digit between, and nothing else.
  ghost predicate PointName(stem: string, group: string, point: int) {
    group != "" && 0 <= point <= 2 && stem == group + ".p" + [['0', '1', '2'][point]]
  }

  ghost predicate Unpointed(stem: string) { forall group, point :: !PointName(stem, group, point) }

  // The group and the point a log's file name stands for.
  ghost predicate NameOf(name: string, group: string, point: int) {
    exists bare, stem ::
      && Without(name, ".log", bare) && Without(bare, ".recheck", stem)
      && (PointName(stem, group, point) || (Unpointed(stem) && group == stem && point == 1))
  }

  lemma EndsIs(name: string, end: string)
    ensures EndsWith(name, end) <==> Tailed(name, end)
  {
    if EndsWith(name, end) { assert name == name[..|name| - |end|] + end; }
  }

  lemma StripIs(name: string, end: string, rest: string)
    requires end != ""
    ensures Strip(name, end) == rest <==> Without(name, end, rest)
  {
    EndsIs(name, end);
    if EndsWith(name, end) {
      assert name == name[..|name| - |end|] + end;
      if name == rest + end { assert rest == (rest + end)[..|rest|]; }
    }
  }

  lemma PointedIs(stem: string)
    ensures Pointed(stem) ==> PointName(stem, stem[..|stem| - 3], stem[|stem| - 1] as int - '0' as int)
    ensures Pointed(stem) <==> !Unpointed(stem)
  {
    if Pointed(stem) {
      var d := stem[|stem| - 1] as int - '0' as int;
      assert ['0', '1', '2'][d] == stem[|stem| - 1];
      assert stem == stem[..|stem| - 3] + ".p" + [stem[|stem| - 1]];
      assert PointName(stem, stem[..|stem| - 3], d);
    } else {
      forall group, point ensures !PointName(stem, group, point) {
        if PointName(stem, group, point) {
          PointChars(stem, group, point);
        }
      }
    }
  }

  lemma PointChars(stem: string, group: string, point: int)
    requires PointName(stem, group, point)
    ensures Pointed(stem) && stem[..|stem| - 3] == group && stem[|stem| - 1] as int - '0' as int == point
  {
    assert stem[..|stem| - 3] == group;
  }

  lemma NameMeans(name: string, group: string, point: int)
    ensures Group(name) == group && Point(name) == point <==> NameOf(name, group, point)
  {
    hide Without, PointName, Unpointed, Strip, Pointed;
    var bare, stem := Strip(name, ".log"), Stem(name);
    StripIs(name, ".log", bare);
    StripIs(bare, ".recheck", stem);
    PointedIs(stem);
    NameParts(name, group, point, bare, stem);
    if NameOf(name, group, point) {
      var b, s :| Without(name, ".log", b) && Without(b, ".recheck", s)
                  && (PointName(s, group, point) || (Unpointed(s) && group == s && point == 1));
      StripIs(name, ".log", b);
      StripIs(b, ".recheck", s);
      PointedIs(s);
      if PointName(s, group, point) { PointChars(s, group, point); }
    }
  }

  lemma NameParts(name: string, group: string, point: int, bare: string, stem: string)
    requires stem == Stem(name) && bare == Strip(name, ".log")
    ensures Stem(name) == Strip(bare, ".recheck")
  {
    hide Strip;
  }

  lemma ConfirmingMeans(name: string)
    ensures Confirming(name) <==> Tailed(name, ".confirm.log") || Tailed(name, ".confirm.recheck.log")
  {
    hide EndsWith, Tailed;
    EndsIs(name, ".confirm.log");
    EndsIs(name, ".confirm.recheck.log");
  }

  /* ---- Labels and requests ---- */

  // Blanks, slashes and colons become underscores, and nothing else changes.
  ghost predicate Slugged(label_: string, slug: string) {
    && |slug| == |label_|
    && forall i :: 0 <= i < |label_| ==>
         slug[i] == if label_[i] == ' ' || label_[i] == '/' || label_[i] == ':' then '_' else label_[i]
  }

  lemma SlugsMean(labels: seq<string>, slug: string)
    ensures slug in Slugs(labels) <==> exists i :: 0 <= i < |labels| && Slugged(labels[i], slug)
  {
    forall i | 0 <= i < |labels| ensures Slugged(labels[i], slug) <==> slug == Slug(labels[i]) {
      SlugMeans(labels[i], slug);
    }
    hide Slug, Slugged;
  }

  lemma SlugMeans(text: string, slug: string)
    ensures Slugged(text, slug) <==> slug == Slug(text)
  {
    if Slugged(text, slug) {
      assert forall i :: 0 <= i < |slug| ==> slug[i] == Slug(text)[i];
    }
  }

  lemma {:induction false} PartAfterIs(test: string, i: nat)
    requires i + 1 < |test| && forall j: nat :: i < j ==> !LastCut.Colons(test, j)
    ensures LastCut.Follows(test, PartAfter(test, i))
  {
    if LastCut.Colons(test, i) {
      assert LastCut.IsLast(test, i);
    } else if i > 0 {
      PartAfterIs(test, i - 1);
    }
  }

  lemma LastPartMeans(test: string, part: string)
    ensures LastPart(test) == part <==> LastCut.Follows(test, part)
  {
    if |test| >= 2 { PartAfterIs(test, |test| - 2); }
    if LastCut.Follows(test, part) && !LastCut.NoColons(test) {
      var i: nat :| LastCut.IsLast(test, i) && part == test[i + 2..];
      var j: nat :| LastCut.IsLast(test, j) && LastPart(test) == test[j + 2..];
      LastCut.CutOnce(test, i, j);
    }
  }

  // A test is asked for by its name or its last part, or by a bare recheck line.
  lemma RequestedMeans(log: Log, test: string)
    ensures Requested(log, test) <==>
            if log.requests == {} then log.recheck
            else test in log.requests || exists part :: part in log.requests && LastCut.Follows(test, part)
  {
    hide LastPart;
    LastPartMeans(test, LastPart(test));
    forall part ensures LastPart(test) == part <==> LastCut.Follows(test, part) { LastPartMeans(test, part); }
  }

  /* ---- A decision ---- */

  // `d` lies between a bound and its opposite.
  predicate Inside(d: real, bound: real) { (0.0 - bound <= d && d <= bound) || (bound <= d && d <= 0.0 - bound) }

  // The two numbers differ by at most `rel` of one of them, or by at most `abs`.
  predicate Within(x: real, y: real, rel: real, abs: real) {
    Inside(x - y, rel * x) || Inside(x - y, rel * y) || (0.0 - abs <= x - y && x - y <= abs)
  }

  lemma CloseMeans(x: real, y: real, rel: real, abs: real)
    ensures Close(x, y, rel, abs) <==> Within(x, y, rel, abs)
  {
    hide Inside, Abs;
    InsideIs(x - y, rel * x);
    InsideIs(x - y, rel * y);
    BetweenIs(x - y, abs);
  }

  lemma InsideIs(d: real, bound: real)
    ensures Abs(d) <= Abs(bound) <==> Inside(d, bound)
  {
  }

  lemma BetweenIs(d: real, abs: real)
    ensures Abs(d) <= abs <==> 0.0 - abs <= d && d <= abs
  {
  }

  // The p-value the protocol computes, for counts in range.
  function Computed(value: Verdict, nominal: real): real
    requires PValues.Countable(value.scored, value.covered, nominal)
  {
    InRange(value.scored, value.covered, nominal, value.lowerOnly);
    PValue(value.scored, value.covered, nominal, value.lowerOnly, Tails.EPS).value
  }

  lemma InRange(scored: int, covered: int, nominal: real, lowerOnly: bool)
    requires PValues.Countable(scored, covered, nominal)
    ensures PValue(scored, covered, nominal, lowerOnly, Tails.EPS).Ok?
  {
    hide Lower, Upper;
  }

  // A stored decision that is the protocol's own on its counts.
  predicate Stored(value: Verdict, nominal: real, expected: Config) {
    && value.config == expected && PValues.Frozen(expected)
    && PValues.Decidable(value.config, value.planned, value.scored, value.covered, nominal)
    && value.weight == (if value.planned == 400 then 0.5 else 0.25)
    && Within(value.pValue, Computed(value, nominal), 0.000000005, 0.0000000000002)
    && value.compatible == (Computed(value, nominal) > PValues.Share(value.planned, value.config.cells))
  }

  predicate Observed(value: Verdict, observed: Option<real>, replicates: Option<int>) {
    && (replicates.Some? ==> replicates.value == value.scored)
    && (observed.Some? ==>
          (&& value.scored != 0
           && Within(observed.value, value.covered as real / value.scored as real, 0.0, 0.0000000000002)))
  }

  lemma DecisionMeans(value: Verdict, nominal: real, observed: Option<real>, replicates: Option<int>, expected: Config)
    ensures ValidateDecision(value, nominal, observed, replicates, expected).Ok? <==>
            Stored(value, nominal, expected) && Observed(value, observed, replicates)
    ensures ValidateDecision(value, nominal, observed, replicates, expected).Ok? ==>
            ValidateDecision(value, nominal, observed, replicates, expected).value == value.(pValue := Computed(value, nominal))
  {
    hide PValue, ValidateConfig, Close, Within, PValues.Frozen, Evaluate;
    PValues.ConfigMeans(value.config);
    EvaluateMeans(value.config, value.planned, value.scored, value.covered, nominal, value.lowerOnly, Tails.EPS);
    var r := Evaluate(value.config, value.planned, value.scored, value.covered, nominal, value.lowerOnly, Tails.EPS);
    if r.Ok? {
      PValues.EvaluateParts(value.config, value.planned, value.scored, value.covered, nominal, value.lowerOnly, Tails.EPS);
      CloseMeans(value.pValue, r.value.pValue, 5e-9, 2e-13);
      if observed.Some? { CloseMeans(observed.value, value.covered as real / value.scored as real, 0.0, 2e-13); }
    }
  }

  /* ---- Rows ---- */

  // The tally was made under this configuration, source and point, and holds the decision's counts.
  predicate Holds(tally: Tally, frame: Frame, point: int, value: Verdict) {
    && tally.context.Some?
    && tally.context.value.config == frame.config
    && tally.context.value.measuredAt == frame.sha
    && tally.context.value.gridPoint == point
    && tally.covered == value.covered
    && tally.scored + tally.skipped == value.scored
    && (if tally.mapEnd.Some? then tally.mapEnd.value == value.planned
        else tally.scored + tally.skipped == value.planned)
  }

  // A row at its log's point and source, whose decision reproduces and stands in the sidecar.
  ghost predicate RowFields(frame: Frame, log: Log, point: int, row: Row) {
    && row.gridPoint == point && row.measuredAt == frame.sha
    && Stored(row.protocol, row.nominal, frame.config)
    && log.sidecar.Some?
    && exists t :: t in log.sidecar.value && t.key == frame.keyText(row.test, row.name, row.nominal)
                   && Holds(t, frame, point, row.protocol)
  }

  lemma RowMeans(frame: Frame, log: Log, row: Row)
    ensures RowGood(frame, log, row) <==> RowFields(frame, log, Point(log.name), row)
  {
    hide ValidateDecision, Stored, Point;
    DecisionMeans(row.protocol, row.nominal, None, None, frame.config);
    if Stored(row.protocol, row.nominal, frame.config) {
      CountsKept(frame.config, row);
    }
  }

  // What a row reproduces to differs from it in the p-value at most.
  lemma CountsKept(config: Config, row: Row)
    requires Stored(row.protocol, row.nominal, config)
    ensures Reproduced(config, row) == row.protocol.(pValue := Computed(row.protocol, row.nominal))
  {
    hide ValidateDecision, Stored, Computed;
    DecisionMeans(row.protocol, row.nominal, None, None, config);
  }

  /* ---- Logs ---- */

  ghost predicate HeaderFields(frame: Frame, labels: seq<string>, log: Log) {
    && !Tailed(log.name, ".confirm.log") && !Tailed(log.name, ".confirm.recheck.log")
    && log.stamps == {frame.sha}
    && (exists i, group, point :: 0 <= i < |labels| && NameOf(log.name, group, point) && Slugged(labels[i], group))
    && log.contexts == [frame.config]
    && (forall r :: r in log.records && r.protocol.None? ==> r.role == "named_boundary")
    && (log.raw != [] ==>
          (&& log.sidecar.Some?
           && forall x, y :: x in log.sidecar.value && y in log.sidecar.value && x.key == y.key ==> x == y))
  }

  lemma HeaderMeans(frame: Frame, labels: seq<string>, log: Log)
    requires frame.groups == Slugs(labels)
    ensures HeaderGood(frame, log) <==> HeaderFields(frame, labels, log)
  {
    hide Confirming, Tailed, Group, Point, Slugs, Slugged, NameOf, Unconflicting;
    ConfirmingMeans(log.name);
    NameMeans(log.name, Group(log.name), Point(log.name));
    SlugsMean(labels, Group(log.name));
    if log.sidecar.Some? { UnconflictingMeans(log.sidecar.value); }
    forall group, point | NameOf(log.name, group, point) ensures group == Group(log.name) {
      NameMeans(log.name, group, point);
    }
  }

  lemma UnconflictingMeans(tallies: seq<Tally>)
    ensures Unconflicting(tallies) <==>
            forall x, y :: x in tallies && y in tallies && x.key == y.key ==> x == y
  {
    if Unconflicting(tallies) {
      forall x, y | x in tallies && y in tallies && x.key == y.key ensures x == y {
        var i :| 0 <= i < |tallies| && tallies[i] == x;
        var j :| 0 <= j < |tallies| && tallies[j] == y;
      }
    }
  }

  // Row `k` is the last of the first `m` that names the record.
  ghost predicate BoundAt(rows: seq<Row>, m: nat, id: string, value: Verdict, k: nat) {
    && k < m <= |rows| && rows[k].recordId == Some(id) && rows[k].protocol == value
    && forall i :: k < i < m ==> rows[i].recordId != Some(id)
  }

  // A record that carries the decision its log binds to it, with the counts it reports.
  ghost predicate RecordFields(frame: Frame, log: Log, point: int, record: Record) {
    if record.protocol.None? then record.role == "named_boundary"
    else
      && (exists m: nat :: BoundAt(log.raw, |log.raw|, record.id, record.protocol.value, m))
      && record.measuredAt == Some(frame.sha) && record.gridPoint == Some(point)
      && Stored(record.protocol.value, record.nominal, frame.config)
      && Observed(record.protocol.value, Some(record.observed), Some(record.replicates))
  }

  lemma {:induction false} BoundMeans(rows: seq<Row>, m: nat, id: string, value: Verdict)
    requires m <= |rows|
    ensures Bound(rows, m, id) == Some(value) <==> exists k: nat :: BoundAt(rows, m, id, value, k)
  {
    if m > 0 {
      var n := m - 1;
      BoundMeans(rows, n, id, value);
      if rows[n].recordId == Some(id) {
        if rows[n].protocol == value { assert BoundAt(rows, m, id, value, n); }
      } else {
        if k: nat :| BoundAt(rows, n, id, value, k) { assert BoundAt(rows, m, id, value, k); }
        if k: nat :| BoundAt(rows, m, id, value, k) { assert BoundAt(rows, n, id, value, k); }
      }
    }
  }

  lemma RecordMeans(frame: Frame, log: Log, record: Record)
    ensures RecordGood(frame, log, record) <==> RecordFields(frame, log, Point(log.name), record)
  {
    hide ValidateDecision, Stored, Observed, Bound, Point;
    if record.protocol.Some? {
      BoundMeans(log.raw, |log.raw|, record.id, record.protocol.value);
      DecisionMeans(record.protocol.value, record.nominal, Some(record.observed), Some(record.replicates), frame.config);
    }
  }

  /* ---- The whole audit ---- */

  // What every log of an accepted audit satisfies.
  ghost predicate LogFields(frame: Frame, labels: seq<string>, log: Log) {
    && HeaderFields(frame, labels, log)
    && (forall i :: 0 <= i < |log.raw| ==> RowFields(frame, log, Point(log.name), log.raw[i]))
    && (forall i :: 0 <= i < |log.records| ==> RecordFields(frame, log, Point(log.name), log.records[i]))
  }

  /**
   * A log is good exactly when its fields are: every row reproduces and stands in the sidecar with
   * its counts, every record carries its row's decision, and no row rebinds a record to another.
   */
  lemma LogMeans(frame: Frame, labels: seq<string>, log: Log)
    requires frame.groups == Slugs(labels)
    ensures LogGood(frame, log) <==>
            LogFields(frame, labels, log) && forall i :: 0 <= i < |log.raw| ==> Rebinds(frame.config, log.raw, i)
  {
    hide HeaderGood, HeaderFields, RowGood, RowFields, RecordGood, RecordFields, Rebinds, Slugs, Point;
    HeaderMeans(frame, labels, log);
    forall i | 0 <= i < |log.raw|
      ensures RowGood(frame, log, log.raw[i]) <==> RowFields(frame, log, Point(log.name), log.raw[i])
    {
      RowMeans(frame, log, log.raw[i]);
    }
    forall i | 0 <= i < |log.records|
      ensures RecordGood(frame, log, log.records[i]) <==> RecordFields(frame, log, Point(log.name), log.records[i])
    {
      RecordMeans(frame, log, log.records[i]);
    }
  }

  // The decision a row contributes: its slot and its own counts, with the protocol's p-value.
  lemma ItemMeans(config: Config, log: Log, row: Row)
    requires Stored(row.protocol, row.nominal, config)
    ensures var it, v := ItemOf(config, log, row), row.protocol;
            && NameOf(log.name, it.slot.cell.group, it.slot.cell.point)
            && it.slot.cell.key == Key(row.test, row.name, row.nominal, row.recordId)
            && it.slot.planned == v.planned
            && it.value == v.(pValue := Computed(v, row.nominal))
  {
    hide Reproduced, Stored, Group, Point, NameOf, Requested, Computed;
    CountsKept(config, row);
    NameMeans(log.name, Group(log.name), Point(log.name));
  }

  /** An audit that returns: every row of every log has these fields, and stands in its sidecar. */
  lemma AuditedRows(frame: Frame, labels: seq<string>, logs: seq<Log>, x: nat, i: nat, point: int, group: string)
    requires Accepted(frame, logs) && frame.groups == Slugs(labels)
    requires x < |logs| && i < |logs[x].raw| && NameOf(logs[x].name, group, point)
    ensures RowFields(frame, logs[x], point, logs[x].raw[i])
    ensures exists j :: 0 <= j < |labels| && Slugged(labels[j], group)
  {
    hide LogGood, NameOf, RowGood, RowFields, HeaderGood, WithinCap, OneValuePerLook, RechecksAnswered,
         FinalsCompatible, Slugged, Slugs, Point;
    NameMeans(logs[x].name, group, point);
    assert LogGood(frame, logs[x]);
    LogMeans(frame, labels, logs[x]);
    SlugsMean(labels, group);
    HeaderIn(frame, logs[x]);
  }

  lemma HeaderIn(frame: Frame, log: Log)
    requires LogGood(frame, log)
    ensures Group(log.name) in frame.groups
  {
    hide Group;
  }

  /** A row that no tally of its sidecar supports makes the audit raise. */
  lemma UnsupportedRaises(frame: Frame, labels: seq<string>, logs: seq<Log>, x: nat, i: nat, point: int, group: string)
    requires frame.groups == Slugs(labels)
    requires x < |logs| && i < |logs[x].raw| && NameOf(logs[x].name, group, point)
    requires var log, row := logs[x], logs[x].raw[i];
             log.sidecar.Some? ==>
               forall t :: t in log.sidecar.value && t.key == frame.keyText(row.test, row.name, row.nominal) ==>
                 !Holds(t, frame, point, row.protocol)
    ensures forall r :: Audited(frame, logs, r) ==> r.Err?
  {
    hide Accepted, NameOf, Holds, Stored, Slugs;
    if Accepted(frame, logs) { AuditedRows(frame, labels, logs, x, i, point, group); }
  }
}
