/** Grouping records by commit, tallying every group, and the verdict over the whole registry. */
module Verdicts {
  import opened Attestation

  /* ---- Filters ---- */

  lemma {:induction false} FilterSame(records: seq<Record>, p: Record -> bool, q: Record -> bool)
    requires forall r :: r in records ==> p(r) == q(r)
    ensures Filter(records, p) == Filter(records, q)
  {
    if records != [] { FilterSame(records[..|records| - 1], p, q); }
  }

  lemma FilterAdd(records: seq<Record>, last: Record, p: Record -> bool)
    ensures Filter(records + [last], p) == Filter(records, p) + (if p(last) then [last] else [])
  {
  }

  lemma {:induction false} FilterTwice(records: seq<Record>, p: Record -> bool, q: Record -> bool, both: Record -> bool)
    requires forall r :: both(r) <==> p(r) && q(r)
    ensures Filter(Filter(records, p), q) == Filter(records, both)
  {
    if records != [] {
      var rest, last := records[..|records| - 1], records[|records| - 1];
      FilterTwice(rest, p, q, both);
      FilterAdd(rest, last, p);
      FilterAdd(rest, last, both);
      assert records == rest + [last];
      if p(last) {
        FilterAdd(Filter(rest, p), last, q);
      } else {
        assert Filter(rest, p) + [] == Filter(rest, p);
      }
    }
  }

  // Filters that exclude one another share out what their union keeps.
  lemma {:induction false} FilterSplit(records: seq<Record>, p: Record -> bool, q: Record -> bool, either: Record -> bool)
    requires forall r :: r in records ==> (either(r) <==> p(r) || q(r)) && !(p(r) && q(r))
    ensures |Filter(records, either)| == |Filter(records, p)| + |Filter(records, q)|
  {
    if records != [] { FilterSplit(records[..|records| - 1], p, q, either); }
  }

  lemma {:induction false} FilterNone(records: seq<Record>, p: Record -> bool)
    requires forall r :: r in records ==> !p(r)
    ensures Filter(records, p) == []
  {
    if records != [] { FilterNone(records[..|records| - 1], p); }
  }

  lemma {:induction false} FilterAll(records: seq<Record>, p: Record -> bool)
    requires forall r :: r in records ==> p(r)
    ensures Filter(records, p) == records
  {
    if records != [] { FilterAll(records[..|records| - 1], p); }
  }

  lemma {:induction false} FilterIn(records: seq<Record>, p: Record -> bool)
    ensures forall r :: r in Filter(records, p) <==> r in records && p(r)
  {
    if records != [] {
      FilterIn(records[..|records| - 1], p);
      assert records == records[..|records| - 1] + [records[|records| - 1]];
    }
  }

  lemma {:induction false} FilterUnique(records: seq<Record>, p: Record -> bool)
    requires UniqueIds(records)
    ensures UniqueIds(Filter(records, p))
  {
    if records != [] {
      var rest, last := records[..|records| - 1], records[|records| - 1];
      assert UniqueIds(rest);
      FilterUnique(rest, p);
      FilterIn(rest, p);
      var kept := Filter(rest, p);
      forall i | 0 <= i < |kept| ensures kept[i].id != last.id {
        assert kept[i] in rest;
      }
    }
  }

  // The number of waived ids is the number of records that satisfy what being waived means.
  lemma {:induction false} IdsCount(records: seq<Record>, ids: set<string>, p: Record -> bool)
    requires UniqueIds(records)
    requires forall i :: 0 <= i < |records| ==> (records[i].id in ids <==> p(records[i]))
    requires forall k :: k in ids ==> exists i :: 0 <= i < |records| && records[i].id == k
    ensures |ids| == |Filter(records, p)|
  {
    if records == [] {
      assert ids == {};
    } else {
      var rest, last := records[..|records| - 1], records[|records| - 1];
      assert forall i :: 0 <= i < |rest| ==> rest[i].id != last.id;
      forall k | k in ids - {last.id} ensures exists i :: 0 <= i < |rest| && rest[i].id == k {
        var i :| 0 <= i < |records| && records[i].id == k;
        assert rest[i].id == k;
      }
      IdsCount(rest, ids - {last.id}, p);
    }
  }

  /* ---- Grouping ---- */

  ghost function From(sha: string): Record -> bool { (r: Record) => r.sha == sha }

  method RecordsOf(records: seq<Record>, sha: string) returns (group: seq<Record>)
    ensures group == Filter(records, From(sha))
    ensures forall i :: 0 <= i < |group| ==> group[i].sha == sha
  {
    group := [];
    for m := 0 to |records|
      invariant group == Filter(records[..m], From(sha))
      invariant forall i :: 0 <= i < |group| ==> group[i].sha == sha
    {
      assert records[..m + 1][..m] == records[..m];
      if records[m].sha == sha {
        group := group + [records[m]];
      }
    }
    assert records[..|records|] == records;
  }

  // One assessment for each commit name, of exactly that name's records in their order.
  ghost predicate Grouped(env: Env, records: seq<Record>, out: seq<Assessment>) {
    && (forall i :: 0 <= i < |out| ==> out[i].records == Filter(records, From(out[i].sha)) && Assessed(env, out[i]))
    && (forall i, j :: 0 <= i < j < |out| ==> out[i].sha != out[j].sha)
  }

  ghost function Shas(out: seq<Assessment>): set<string> { set i | 0 <= i < |out| :: out[i].sha }

  lemma ShasAdd(out: seq<Assessment>, a: Assessment)
    ensures Shas(out + [a]) == Shas(out) + {a.sha}
  {
    var all := out + [a];
    assert all[|out|] == a;
    forall s | s in Shas(out) ensures s in Shas(all) {
      var i :| 0 <= i < |out| && out[i].sha == s;
      assert all[i].sha == s;
    }
  }

  method Assess(env: Env, records: seq<Record>) returns (out: seq<Assessment>)
    ensures Grouped(env, records, out)
    ensures forall r :: r in records ==> r.sha in Shas(out)
  {
    hide Assessed, Filter;
    var todo := set i | 0 <= i < |records| :: records[i].sha;
    out := [];
    ghost var all := todo;
    while todo != {}
      invariant todo <= all && Shas(out) == all - todo
      invariant Grouped(env, records, out)
      decreases todo
    {
      var sha :| sha in todo;
      var group := RecordsOf(records, sha);
      var a := AssessCommit(env, sha, group);
      assert forall i :: 0 <= i < |out| ==> out[i].sha in Shas(out);
      ShasAdd(out, a);
      out := out + [a];
      todo := todo - {sha};
    }
  }

  /* ---- Tallies ---- */

  datatype Tally = Tally(standing: int, byReplay: map<string, nat>, owed: int, unverifiable: int)

  function Get(m: map<string, nat>, k: string): nat { if k in m then m[k] else 0 }

  ghost function MapSum(m: map<string, nat>): nat {
    if m == map[] then 0 else
      var k :| k in m;
      m[k] + MapSum(m - {k})
  }

  lemma {:induction false} MapSumRemove(m: map<string, nat>, k: string)
    requires k in m
    ensures MapSum(m) == m[k] + MapSum(m - {k})
    decreases |m|
  {
    var x :| x in m && MapSum(m) == m[x] + MapSum(m - {x});
    if x != k {
      MapSumRemove(m - {x}, k);
      MapSumRemove(m - {k}, x);
      assert m - {x} - {k} == m - {k} - {x};
    }
  }

  lemma MapSumPut(m: map<string, nat>, k: string, v: nat)
    ensures MapSum(m[k := v]) == MapSum(m) - Get(m, k) + v
  {
    MapSumRemove(m[k := v], k);
    assert m[k := v] - {k} == m - {k};
    if k in m {
      MapSumRemove(m, k);
    } else {
      assert m - {k} == m;
    }
  }

  // The keys of `m` with value `v`.
  function At(m: map<string, string>, v: string): set<string> { set k | k in m && m[k] == v }

  method CountWaivers(waived: map<string, string>) returns (counts: map<string, nat>)
    ensures forall w :: Get(counts, w) == |At(waived, w)|
    ensures MapSum(counts) == |waived|
  {
    hide MapSum, At, Get;
    counts := map[];
    NothingCounted(waived);
    var todo := waived.Keys;
    while todo != {}
      invariant todo <= waived.Keys
      invariant forall w :: Get(counts, w) == |At(waived, w) - todo|
      invariant MapSum(counts) == |waived.Keys - todo|
      decreases todo
    {
      var k :| k in todo;
      var w := waived[k];
      CountOne(waived, todo, counts, k);
      counts := counts[w := Get(counts, w) + 1];
      todo := todo - {k};
    }
    AllCounted(waived);
  }

  lemma AllCounted(waived: map<string, string>)
    ensures forall w :: At(waived, w) - {} == At(waived, w)
    ensures |waived.Keys - {}| == |waived|
  {
    assert waived.Keys - {} == waived.Keys && |waived.Keys| == |waived|;
  }

  lemma CountOne(waived: map<string, string>, todo: set<string>, counts: map<string, nat>, k: string)
    requires k in todo && todo <= waived.Keys
    requires forall w :: Get(counts, w) == |At(waived, w) - todo|
    ensures var now := counts[waived[k] := Get(counts, waived[k]) + 1];
            && (forall w :: Get(now, w) == |At(waived, w) - (todo - {k})|)
            && MapSum(now) == MapSum(counts) + 1
    ensures |waived.Keys - (todo - {k})| == |waived.Keys - todo| + 1
  {
    hide MapSum, At, Get;
    var n := Get(counts, waived[k]) + 1;
    AtGrows(waived, todo, k);
    MapSumPut(counts, waived[k], n);
    GetPut(counts, waived[k], n);
  }

  lemma AtGrows(waived: map<string, string>, todo: set<string>, k: string)
    requires k in waived && k in todo
    ensures |waived.Keys - (todo - {k})| == |waived.Keys - todo| + 1
    ensures forall v :: |At(waived, v) - (todo - {k})| == |At(waived, v) - todo| + (if v == waived[k] then 1 else 0)
  {
    assert waived.Keys - (todo - {k}) == (waived.Keys - todo) + {k};
    forall v ensures |At(waived, v) - (todo - {k})| == |At(waived, v) - todo| + (if v == waived[k] then 1 else 0) {
      if v == waived[k] {
        assert At(waived, v) - (todo - {k}) == (At(waived, v) - todo) + {k};
      } else {
        assert At(waived, v) - (todo - {k}) == At(waived, v) - todo;
      }
    }
  }

  lemma GetPut(m: map<string, nat>, k: string, v: nat)
    ensures forall w :: Get(m[k := v], w) == if w == k then v else Get(m, w)
  {
    forall w ensures Get(m[k := v], w) == if w == k then v else Get(m, w) {
    }
  }

  lemma NothingCounted(waived: map<string, string>)
    ensures forall w :: Get(map[], w) == 0 == |At(waived, w) - waived.Keys|
    ensures MapSum(map[]) == 0 == |waived.Keys - waived.Keys|
  {
  }

  lemma NoSum()
    ensures MapSum(map[]) == 0
  {
  }

  method Merge(total: map<string, nat>, counts: map<string, nat>) returns (r: map<string, nat>)
    ensures forall w :: Get(r, w) == Get(total, w) + Get(counts, w)
    ensures MapSum(r) == MapSum(total) + MapSum(counts)
  {
    hide MapSum;
    NoSum();
    r := total;
    var todo := counts.Keys;
    ghost var done: map<string, nat> := map[];
    while todo != {}
      invariant todo <= counts.Keys
      invariant forall w :: Get(done, w) == if w in todo then 0 else Get(counts, w)
      invariant done.Keys == counts.Keys - todo
      invariant forall w :: Get(r, w) == Get(total, w) + Get(done, w)
      invariant MapSum(r) == MapSum(total) + MapSum(done)
      decreases todo
    {
      var w :| w in todo;
      MapSumPut(done, w, counts[w]);
      MapSumPut(r, w, Get(r, w) + counts[w]);
      done := done[w := counts[w]];
      r := r[w := Get(r, w) + counts[w]];
      todo := todo - {w};
    }
    assert done == counts by {
      assert forall k :: k in counts ==> done[k] == Get(done, k) == Get(counts, k);
    }
  }

  // A sum over the first `m` assessments.
  ghost function SumTo(out: seq<Assessment>, f: Assessment -> int, m: nat): int
    requires m <= |out|
  {
    if m == 0 then 0 else SumTo(out, f, m - 1) + f(out[m - 1])
  }

  ghost function Size(): Assessment -> int { (a: Assessment) => |a.records| }

  ghost function Missing(): Assessment -> int { (a: Assessment) => if a.commit.None? then |a.records| else 0 }

  ghost function Stale(): Assessment -> int { (a: Assessment) => if a.commit.None? then 0 else |a.stale| }

  ghost function Waived(): Assessment -> int { (a: Assessment) => if a.commit.None? then 0 else |a.waived| }

  ghost function WaivedBy(w: string): Assessment -> int {
    (a: Assessment) => if a.commit.None? then 0 else |At(a.waived, w)|
  }

  ghost predicate Counted(out: seq<Assessment>, m: nat, tally: Tally)
    requires m <= |out|
  {
    && tally.owed == SumTo(out, Stale(), m)
    && tally.unverifiable == SumTo(out, Missing(), m)
    && MapSum(tally.byReplay) == SumTo(out, Waived(), m)
    && (forall w :: Get(tally.byReplay, w) == SumTo(out, WaivedBy(w), m))
    && tally.standing + MapSum(tally.byReplay) + tally.owed + tally.unverifiable == SumTo(out, Size(), m)
  }

  // The four counts always add up to the number of records.
  method Report(out: seq<Assessment>) returns (tally: Tally)
    ensures Counted(out, |out|, tally)
  {
    hide MapSum;
    NoSum();
    tally := Tally(0, map[], 0, 0);
    for m := 0 to |out|
      invariant Counted(out, m, tally)
    {
      var a := out[m];
      if a.commit.None? {
        tally := tally.(unverifiable := tally.unverifiable + |a.records|);
      } else {
        var counts := CountWaivers(a.waived);
        var merged := Merge(tally.byReplay, counts);
        tally := Tally(tally.standing + |a.records| - |a.stale| - |a.waived|, merged,
                       tally.owed + |a.stale|, tally.unverifiable);
      }
    }
  }

  /* ---- Groups add up to the registry ---- */

  // A measure of each group that counts the group's records with a property, summed, counts them all.
  lemma {:induction false} GroupsCount(records: seq<Record>, out: seq<Assessment>, f: Assessment -> int,
                                       p: Record -> bool, m: nat)
    requires m <= |out|
    requires forall i, j :: 0 <= i < j < |out| ==> out[i].sha != out[j].sha
    requires forall i :: 0 <= i < |out| ==> f(out[i]) == |Filter(records, FromWith(out[i].sha, p))|
    ensures SumTo(out, f, m) == |Filter(records, Within(out, m, p))|
  {
    hide Filter;
    if m == 0 {
      FilterNone(records, Within(out, 0, p));
    } else {
      GroupsCount(records, out, f, p, m - 1);
      FilterSplit(records, Within(out, m - 1, p), FromWith(out[m - 1].sha, p), Within(out, m, p));
    }
  }

  ghost function FromWith(sha: string, p: Record -> bool): Record -> bool { (r: Record) => r.sha == sha && p(r) }

  ghost predicate ShaAmong(out: seq<Assessment>, m: nat, sha: string)
    requires m <= |out|
  {
    exists i :: 0 <= i < m && out[i].sha == sha
  }

  ghost function Within(out: seq<Assessment>, m: nat, p: Record -> bool): Record -> bool
    requires m <= |out|
  {
    (r: Record) => ShaAmong(out, m, r.sha) && p(r)
  }

  // Every record's state, counted over the whole registry without any grouping.
  ghost function CountOf(records: seq<Record>, p: Record -> bool): nat { |Filter(records, p)| }

  ghost function AnyReplay(env: Env): Record -> bool { (r: Record) => StatusOf(env, r).Replayed? }

  lemma GroupStale(env: Env, records: seq<Record>, a: Assessment)
    requires UniqueIds(records) && a.records == Filter(records, From(a.sha)) && Assessed(env, a)
    ensures Stale()(a) == |Filter(records, FromWith(a.sha, Is(env, Owed)))|
    ensures Missing()(a) == |Filter(records, FromWith(a.sha, Is(env, Unverifiable)))|
    ensures Waived()(a) == |Filter(records, FromWith(a.sha, AnyReplay(env)))|
    ensures forall w :: WaivedBy(w)(a) == |Filter(records, FromWith(a.sha, Is(env, Replayed(w))))|
  {
    hide Filter, UniqueIds;
    FilterUnique(records, From(a.sha));
    FilterTwice(records, From(a.sha), Is(env, Owed), FromWith(a.sha, Is(env, Owed)));
    FilterTwice(records, From(a.sha), Is(env, Unverifiable), FromWith(a.sha, Is(env, Unverifiable)));
    FilterTwice(records, From(a.sha), AnyReplay(env), FromWith(a.sha, AnyReplay(env)));
    GroupMissing(env, records, a);
    WaivedCount(env, a);
    forall w ensures WaivedBy(w)(a) == |Filter(records, FromWith(a.sha, Is(env, Replayed(w))))| {
      FilterTwice(records, From(a.sha), Is(env, Replayed(w)), FromWith(a.sha, Is(env, Replayed(w))));
      WaivedByCount(env, a, w);
    }
  }

  lemma GroupMissing(env: Env, records: seq<Record>, a: Assessment)
    requires a.records == Filter(records, From(a.sha)) && Assessed(env, a)
    ensures Missing()(a) == |Filter(a.records, Is(env, Unverifiable))|
    ensures Stale()(a) == |a.stale|
  {
    hide Filter, FirstExcuse, Drifts;
    FilterIn(records, From(a.sha));
    if a.commit.None? {
      FilterAll(a.records, Is(env, Unverifiable));
    } else {
      FilterNone(a.records, Is(env, Unverifiable));
    }
  }

  lemma WaivedCount(env: Env, a: Assessment)
    requires UniqueIds(a.records) && Assessed(env, a)
    ensures Waived()(a) == |Filter(a.records, AnyReplay(env))|
  {
    hide Filter, StatusOf;
    assert WaivedKept(env, a.records, a.waived);
    assert |a.waived| == |a.waived.Keys|;
    IdsCount(a.records, a.waived.Keys, AnyReplay(env));
  }

  lemma WaivedByCount(env: Env, a: Assessment, w: string)
    requires UniqueIds(a.records) && Assessed(env, a)
    ensures WaivedBy(w)(a) == |Filter(a.records, Is(env, Replayed(w)))|
  {
    hide Filter, StatusOf;
    assert WaivedKept(env, a.records, a.waived);
    forall i | 0 <= i < |a.records|
      ensures a.records[i].id in At(a.waived, w) <==> Is(env, Replayed(w))(a.records[i])
    {
    }
    IdsCount(a.records, At(a.waived, w), Is(env, Replayed(w)));
  }

  lemma SumIs(env: Env, records: seq<Record>, out: seq<Assessment>, f: Assessment -> int, p: Record -> bool)
    requires Grouped(env, records, out) && forall r :: r in records ==> r.sha in Shas(out)
    requires forall i :: 0 <= i < |out| ==> f(out[i]) == |Filter(records, FromWith(out[i].sha, p))|
    ensures SumTo(out, f, |out|) == CountOf(records, p)
  {
    hide Filter, Assessed;
    GroupsCount(records, out, f, p, |out|);
    FilterSame(records, p, Within(out, |out|, p));
  }

  // The tally counts every record once, by its own state: grouping by commit changes nothing.
  ghost predicate Exact(env: Env, records: seq<Record>, tally: Tally) {
    && tally.owed == CountOf(records, Is(env, Owed))
    && tally.unverifiable == CountOf(records, Is(env, Unverifiable))
    && tally.standing == CountOf(records, Is(env, Standing))
    && MapSum(tally.byReplay) == CountOf(records, AnyReplay(env))
    && (forall w :: Get(tally.byReplay, w) == CountOf(records, Is(env, Replayed(w))))
  }

  lemma TallyExact(env: Env, records: seq<Record>, out: seq<Assessment>, tally: Tally)
    requires Grouped(env, records, out) && forall r :: r in records ==> r.sha in Shas(out)
    requires Counted(out, |out|, tally) && UniqueIds(records)
    ensures Exact(env, records, tally)
  {
    hide Filter, MapSum, StatusOf, Assessed, UniqueIds, SumTo, CountOf;
    forall i | 0 <= i < |out|
      ensures Stale()(out[i]) == |Filter(records, FromWith(out[i].sha, Is(env, Owed)))|
      ensures Missing()(out[i]) == |Filter(records, FromWith(out[i].sha, Is(env, Unverifiable)))|
      ensures Waived()(out[i]) == |Filter(records, FromWith(out[i].sha, AnyReplay(env)))|
      ensures forall w :: WaivedBy(w)(out[i]) == |Filter(records, FromWith(out[i].sha, Is(env, Replayed(w))))|
    {
      GroupStale(env, records, out[i]);
    }
    SumIs(env, records, out, Stale(), Is(env, Owed));
    SumIs(env, records, out, Missing(), Is(env, Unverifiable));
    SumIs(env, records, out, Waived(), AnyReplay(env));
    forall w ensures Get(tally.byReplay, w) == CountOf(records, Is(env, Replayed(w))) {
      SumIs(env, records, out, WaivedBy(w), Is(env, Replayed(w)));
    }
    GroupSizes(env, records, out);
    StatesShareOut(env, records);
  }

  ghost function Any(): Record -> bool { (r: Record) => true }

  lemma GroupSizes(env: Env, records: seq<Record>, out: seq<Assessment>)
    requires Grouped(env, records, out) && forall r :: r in records ==> r.sha in Shas(out)
    ensures SumTo(out, Size(), |out|) == |records|
  {
    hide Filter, Assessed;
    forall i | 0 <= i < |out| ensures Size()(out[i]) == |Filter(records, FromWith(out[i].sha, Any()))| {
      FilterSame(records, From(out[i].sha), FromWith(out[i].sha, Any()));
    }
    SumIs(env, records, out, Size(), Any());
    FilterAll(records, Any());
  }

  lemma StatesShareOut(env: Env, records: seq<Record>)
    ensures CountOf(records, Is(env, Standing)) + CountOf(records, AnyReplay(env))
            + CountOf(records, Is(env, Owed)) + CountOf(records, Is(env, Unverifiable)) == |records|
  {
    hide Filter, StatusOf;
    var good: Record -> bool := (r: Record) => StatusOf(env, r).Standing? || StatusOf(env, r).Replayed?;
    var bad: Record -> bool := (r: Record) => StatusOf(env, r).Owed? || StatusOf(env, r).Unverifiable?;
    FilterSplit(records, Is(env, Standing), AnyReplay(env), good);
    FilterSplit(records, Is(env, Owed), Is(env, Unverifiable), bad);
    FilterSplit(records, good, bad, Any());
    FilterAll(records, Any());
  }

  /* ---- The verdict ---- */

  datatype Verdict =
    | Attested(standing: int, byReplay: map<string, nat>)
    | NotAttested(owed: int, unverifiable: int, invalidWaiver: bool, noRecords: bool)

  function AttestationVerdict(tally: Tally, anyRecords: bool, invalidWaiver: bool): Verdict {
    if tally.owed != 0 || tally.unverifiable != 0 || !anyRecords || invalidWaiver then
      NotAttested(tally.owed, tally.unverifiable, invalidWaiver, !anyRecords)
    else
      Attested(tally.standing, tally.byReplay)
  }

  // What a record needs to be attested: its commit is known, and either nothing it depends on
  // drifted, or one waiver from that commit names every drifted path and nothing it depends on
  // differs from the waiver's end.
  ghost predicate Stands(env: Env, record: Record) {
    var commit := Commit(env, record.sha);
    && commit.Some?
    && (|| (forall path :: !Drifts(env, record, commit.value, path))
        || (exists w :: w in env.waivers && Excuses(env, record, commit.value, w)))
  }

  lemma {:induction false} ExcuseFound(env: Env, record: Record, commit: string, m: nat)
    requires m <= |env.waivers|
    ensures FirstExcuse(env, record, commit, m).Some? <==>
            exists i :: m <= i < |env.waivers| && Excuses(env, record, commit, env.waivers[i])
    decreases |env.waivers| - m
  {
    hide Excuses;
    if m < |env.waivers| { ExcuseFound(env, record, commit, m + 1); }
  }

  lemma StandsMeans(env: Env, record: Record)
    ensures Stands(env, record) <==> StatusOf(env, record).Standing? || StatusOf(env, record).Replayed?
  {
    hide Excuses, Drifts, FirstExcuse;
    var commit := Commit(env, record.sha);
    if commit.Some? {
      ExcuseFound(env, record, commit.value, 0);
      if exists w :: w in env.waivers && Excuses(env, record, commit.value, w) {
        var w :| w in env.waivers && Excuses(env, record, commit.value, w);
        var i :| 0 <= i < |env.waivers| && env.waivers[i] == w;
        assert Excuses(env, record, commit.value, env.waivers[i]);
      }
    }
  }

  lemma {:induction false} CountZero(records: seq<Record>, p: Record -> bool)
    ensures CountOf(records, p) == 0 <==> forall r :: r in records ==> !p(r)
  {
    FilterIn(records, p);
    if CountOf(records, p) == 0 {
      forall r | r in records ensures !p(r) {
        assert r !in Filter(records, p);
      }
    } else {
      assert Filter(records, p)[0] in Filter(records, p);
    }
  }

  // The counts the verdict reports: every record once, in its own state.
  ghost predicate Judged(env: Env, records: seq<Record>, invalidWaiver: bool, verdict: Verdict) {
    match verdict
    case Attested(standing, byReplay) =>
      && standing == CountOf(records, Is(env, Standing))
      && (forall w :: Get(byReplay, w) == CountOf(records, Is(env, Replayed(w))))
      && standing + MapSum(byReplay) == |records|
    case NotAttested(owed, unverifiable, invalid, none) =>
      && owed == CountOf(records, Is(env, Owed))
      && unverifiable == CountOf(records, Is(env, Unverifiable))
      && invalid == invalidWaiver && (none <==> records == [])
  }

  /**
   * The whole gate.  With distinct record ids it attests exactly when there are records, no
   * waiver is invalid, and every record stands.
   */
  method Attest(env: Env, records: seq<Record>, invalidWaiver: bool) returns (verdict: Verdict)
    ensures UniqueIds(records) ==>
              (verdict.Attested? <==> records != [] && !invalidWaiver && forall r :: r in records ==> Stands(env, r))
    ensures UniqueIds(records) ==> Judged(env, records, invalidWaiver, verdict)
  {
    hide Stands, UniqueIds, Grouped, Counted, MapSum, CountOf, Is, AnyReplay;
    var out := Assess(env, records);
    var tally := Report(out);
    if UniqueIds(records) {
      TallyExact(env, records, out, tally);
      StatesShareOut(env, records);
      NoneLeft(env, records);
    }
    verdict := AttestationVerdict(tally, |records| != 0, invalidWaiver);
  }

  lemma NoneLeft(env: Env, records: seq<Record>)
    ensures CountOf(records, Is(env, Owed)) == 0 && CountOf(records, Is(env, Unverifiable)) == 0 <==>
            forall r :: r in records ==> Stands(env, r)
  {
    hide Stands, StatusOf, CountOf;
    CountZero(records, Is(env, Owed));
    CountZero(records, Is(env, Unverifiable));
    forall r | r in records ensures Stands(env, r) <==> StatusOf(env, r).Standing? || StatusOf(env, r).Replayed? {
      StandsMeans(env, r);
    }
  }
}
