/** The token scans of two texts whose blanked comment lines differ. */
module TokenEdits {
  import opened Prelude
  import opened RustLexer
  import opened DocGaps
  import opened RustTokens
  import opened TokenCuts
  import opened TokenGaps

  // The same error, or tokens that end at corresponding places.
  ghost predicate SameLen(gaps: seq<Gap>, r: Result<nat, TokenError>, r': Result<nat, TokenError>) {
    match r
    case Err(e) => r' == Err(e)
    case Ok(n) => Lands(gaps, n) && r' == Ok(Moved(gaps, n))
  }

  lemma SmallLen(gaps: seq<Gap>, n: nat)
    requires gaps != [] && n <= gaps[0].d
    ensures SameLen(gaps, Ok(n), Ok(n))
  {
  }

  lemma BodyLen(gaps: seq<Gap>, b: Body, b': Body, e: TokenError)
    requires SameEnd(gaps, b, b')
    ensures SameLen(gaps, if b.closed then Ok(b.len) else Err(e), if b'.closed then Ok(b'.len) else Err(e))
  {
  }

  lemma RawLen(gaps: seq<Gap>, k: string, k': string)
    requires gaps != [] && Fits(gaps, k, k') && AllBlank(gaps)
    requires RawOpen(k).Some? && RawOpen(k') == RawOpen(k) && RawOpen(k).value.len <= gaps[0].d
    ensures k != [] && k' != [] && SameLen(gaps, LiteralLen(k), LiteralLen(k'))
  {
    hide Fits, AllBlank, SameEnd, RawBody, RawOpen, ByteCharLen, SameLen;
    var o := RawOpen(k).value;
    AdvanceFits(gaps, o.len, k, k');
    AdvanceBlanks(gaps, o.len);
    RawGaps(Advance(gaps, o.len), k[o.len..], k'[o.len..], o.hashes);
    EndAfter(gaps, o.len, RawBody(k[o.len..], o.hashes), RawBody(k'[o.len..], o.hashes));
    BodyLen(gaps, RawBody(k[o.len..], o.hashes).Plus(o.len), RawBody(k'[o.len..], o.hashes).Plus(o.len), UnterminatedRaw);
  }

  lemma StringLen(gaps: seq<Gap>, k: string, k': string)
    requires gaps != [] && Fits(gaps, k, k') && AllBlank(gaps) && gaps[0].d > 0
    requires RawOpen(k).None? && RawOpen(k').None?
    requires k != [] && k' != [] && ByteCharLen(k) == 0 && ByteCharLen(k') == 0
    ensures SameLen(gaps, LiteralLen(k), LiteralLen(k'))
  {
    hide Fits, AllBlank, SameEnd, StrBody, RawOpen, ByteCharLen, SameLen, Cut, LiteralLen, Advance, FitsHead;
    var d := gaps[0].d;
    GapParts(gaps, k, k');
    SameQuote(k, k', d);
    StringIsLiteral(k);
    StringIsLiteral(k');
    var q := QuoteAt(k);
    if k[q] == '"' {
      AdvanceFits(gaps, q + 1, k, k');
      AdvanceBlanks(gaps, q + 1);
      StrGaps(Advance(gaps, q + 1), k[q + 1..], k'[q + 1..]);
      EndAfter(gaps, q + 1, StrBody(k[q + 1..]), StrBody(k'[q + 1..]));
      BodyLen(gaps, StrBody(k[q + 1..]).Plus(q + 1), StrBody(k'[q + 1..]).Plus(q + 1), UnterminatedString);
    } else {
      SameError(gaps, UnsupportedLiteral);
    }
  }

  lemma StringIsLiteral(k: string)
    requires k != [] && RawOpen(k).None? && ByteCharLen(k) == 0
    ensures LiteralLen(k) ==
            if k[QuoteAt(k)] != '"' then Err(UnsupportedLiteral)
            else
              var b := StrBody(k[QuoteAt(k) + 1..]).Plus(QuoteAt(k) + 1);
              if b.closed then Ok(b.len) else Err(UnterminatedString)
  {
  }

  lemma SameError(gaps: seq<Gap>, e: TokenError)
    ensures SameLen(gaps, Err(e), Err(e))
  {
  }

  lemma SameQuote(k: string, k': string, d: nat)
    requires Cut(k, k', d) && d > 0
    ensures QuoteAt(k) == QuoteAt(k') < d && k[QuoteAt(k)] == k'[QuoteAt(k)]
  {
  }

  lemma LenGaps(gaps: seq<Gap>, k: string, s: string, k': string, s': string)
    requires gaps != [] && gaps[0].d > 0 && AllBlank(gaps)
    requires Fits(gaps, k, k') && Fits(gaps, s, s') && |k| == |s| && |k'| == |s'|
    ensures k != [] && k' != []
    ensures SameLen(gaps, TokenLen(k, s), TokenLen(k', s'))
  {
    hide Fits, AllBlank, SameLen, Cut, LiteralLen, CodeLen, RawOpen, ByteCharLen;
    var d := gaps[0].d;
    GapParts(gaps, k, k');
    GapParts(gaps, s, s');
    SameIsLiteral(k, s, k', s', d);
    if IsLiteral(k, s) {
      CutOpener(k, k', d);
      CutByteChar(k, k', d);
      if RawOpen(k).Some? {
        RawLen(gaps, k, k');
      } else if ByteCharLen(k) > 0 {
        CharIsLiteral(k); CharIsLiteral(k');
        SmallLen(gaps, ByteCharLen(k));
      } else {
        StringLen(gaps, k, k');
      }
    } else {
      CutSame(k, k', d, 0);
      CutCode(k, k', d);
      if k[0] as int > 127 { SameError(gaps, NonAscii); } else { SmallLen(gaps, CodeLen(k)); }
    }
  }

  lemma CharIsLiteral(k: string)
    requires k != [] && RawOpen(k).None? && ByteCharLen(k) > 0
    ensures LiteralLen(k) == Ok(ByteCharLen(k))
  {
  }

  lemma SameIsLiteral(k: string, s: string, k': string, s': string, d: nat)
    requires |k| == |s| && |k'| == |s'| && d > 0 && Cut(k, k', d) && Cut(s, s', d)
    ensures k != [] && k' != [] && IsLiteral(k, s) == IsLiteral(k', s')
  {
  }

  /* ---- Which tokens straddle a changed line ---- */

  // The token's span has offset `at` strictly inside.
  predicate Straddles(span: Span, at: nat) { span.from < at < span.to }

  ghost predicate Clean(spans: seq<Span>, marks: seq<nat>) {
    forall i, j :: 0 <= i < |spans| && 0 <= j < |marks| ==> !Straddles(spans[i], marks[j])
  }

  lemma {:induction false} MarksFrom(gaps: seq<Gap>, base: nat)
    ensures forall j :: 0 <= j < |Marks(gaps, base)| ==> Marks(gaps, base)[j] >= base + gaps[0].d
  {
    if gaps != [] { MarksFrom(gaps[1..], base + gaps[0].d + |gaps[0].was|); }
  }

  lemma AdvanceMarks(gaps: seq<Gap>, n: nat, base: nat)
    requires gaps != [] ==> n <= gaps[0].d
    ensures Marks(Advance(gaps, n), base + n) == Marks(gaps, base)
  {
  }

  // `rest` are the marks at or after offset `end`; the others are at `start` or later.
  ghost predicate MarksSplit(marks: seq<nat>, rest: seq<nat>, start: nat, end: nat) {
    && |rest| <= |marks| && marks[|marks| - |rest|..] == rest
    && (forall j :: 0 <= j < |rest| ==> rest[j] >= end)
    && (forall j :: 0 <= j < |marks| - |rest| ==> start <= marks[j] < end)
  }

  function FirstAt(gaps: seq<Gap>, base: nat): nat {
    if gaps == [] then base else base + gaps[0].d
  }

  // The marks a token passes are those of the changed gaps it passes.
  ghost predicate MarksPassed(gaps: seq<Gap>, n: nat, base: nat) {
    var marks, rest := Marks(gaps, base), Marks(Skip(gaps, n), base + n);
    && MarksSplit(marks, rest, FirstAt(gaps, base), base + n)
    && (Unchanged(gaps, n) <==> |marks| == |rest|)
  }

  lemma {:induction false} SkipMarks(gaps: seq<Gap>, n: nat, base: nat)
    requires Lands(gaps, n) && AllBlank(gaps)
    ensures MarksPassed(gaps, n, base)
    decreases |gaps|
  {
    hide BlankText, MarksPassed;
    if gaps == [] || n <= gaps[0].d {
      NoMarkPassed(gaps, n, base);
    } else {
      var g := gaps[0];
      assert |g.was| > 0 by { assert BlankText(gaps[0].was); BlankStart(g.was); }
      SkipMarks(gaps[1..], n - g.d - |g.was|, base + g.d + |g.was|);
      MarkPassed(gaps, n, base);
    }
  }

  lemma NoMarkPassed(gaps: seq<Gap>, n: nat, base: nat)
    requires gaps == [] || n <= gaps[0].d
    ensures MarksPassed(gaps, n, base)
  {
    AdvanceMarks(gaps, n, base);
    MarksFrom(gaps, base);
  }

  lemma MarkPassed(gaps: seq<Gap>, n: nat, base: nat)
    requires gaps != [] && n > gaps[0].d && n >= gaps[0].d + |gaps[0].was| && |gaps[0].was| > 0
    requires MarksPassed(gaps[1..], n - gaps[0].d - |gaps[0].was|, base + gaps[0].d + |gaps[0].was|)
    ensures MarksPassed(gaps, n, base)
  {
  }

  lemma {:induction false} SpansFrom(k: string, s: string, base: nat)
    requires |k| == |s| && Spans(k, s, base).Ok?
    ensures forall i :: 0 <= i < |Spans(k, s, base).value| ==>
      base <= Spans(k, s, base).value[i].from < Spans(k, s, base).value[i].to
    decreases |k|
  {
    hide TokenLen, IsSpace;
    if k != [] {
      var n := if IsSpace(k[0]) then 1 else TokenLen(k, s).value;
      SpansFrom(k[n..], s[n..], base + n);
    }
  }

  // One token more: it straddles exactly the marks before its end.
  lemma CleanToken(n: nat, spans: seq<Span>, marks: seq<nat>, rest: seq<nat>, base: nat, start: nat)
    requires start > base && MarksSplit(marks, rest, start, base + n) && n > 0
    requires forall i :: 0 <= i < |spans| ==> base + n <= spans[i].from
    ensures Clean([Span(base, base + n)] + spans, marks) <==> |marks| == |rest| && Clean(spans, rest)
  {
    var all, at := [Span(base, base + n)] + spans, |marks| - |rest|;
    assert forall j :: 0 <= j < |rest| ==> marks[at + j] == rest[j];
    assert forall i :: 0 <= i < |spans| ==> all[i + 1] == spans[i];
    assert forall j :: at <= j < |marks| ==> marks[j] == rest[j - at];
    assert at > 0 ==> Straddles(all[0], marks[0]);
    if Clean(all, marks) {
      forall i, j | 0 <= i < |spans| && 0 <= j < |rest| ensures !Straddles(spans[i], rest[j]) {
        assert !Straddles(all[i + 1], marks[at + j]);
      }
    }
  }

  /* ---- The scans ---- */

  // Corresponding scans: the same error; or the same number of tokens, and the same texts
  // exactly when no token straddles a changed gap.
  ghost predicate Agree(gaps: seq<Gap>, k: string, s: string, k': string, s': string, base: nat)
    requires |k| == |s| && |k'| == |s'|
  {
    match Spans(k, s, base)
    case Err(e) => Texts(k, s) == Err(e) && Texts(k', s') == Err(e)
    case Ok(spans) =>
      && Texts(k, s).Ok? && Texts(k', s').Ok?
      && (Texts(k, s) == Texts(k', s') <==> Clean(spans, Marks(gaps, base)))
  }

  lemma {:induction false} BlankScan(w: string, k: string, s: string, base: nat)
    requires |w| <= |k| == |s| && w <= k
    requires forall i :: 0 <= i < |w| ==> w[i] in " \t\n"
    ensures Texts(k, s) == Texts(k[|w|..], s[|w|..])
    ensures Spans(k, s, base) == Spans(k[|w|..], s[|w|..], base + |w|)
  {
    hide TokenLen;
    if w == [] {
      assert k[0..] == k && s[0..] == s;
    } else {
      assert k[1..][|w| - 1..] == k[|w|..] && s[1..][|w| - 1..] == s[|w|..];
      BlankScan(w[1..], k[1..], s[1..], base + 1);
    }
  }

  lemma SpaceScan(k: string, s: string, base: nat)
    requires k != [] && |k| == |s| && IsSpace(k[0])
    ensures Texts(k, s) == Texts(k[1..], s[1..]) && Spans(k, s, base) == Spans(k[1..], s[1..], base + 1)
  {
  }

  lemma {:induction false} ScanGaps(gaps: seq<Gap>, k: string, s: string, k': string, s': string, base: nat)
    requires AllBlank(gaps) && |k| == |s| && |k'| == |s'|
    requires Fits(gaps, k, k') && Fits(gaps, s, s')
    ensures Agree(gaps, k, s, k', s', base)
    decreases |k|
  {
    hide Fits, AllBlank, TokenLen, IsSpace, Agree, Marks, Advance;
    if gaps == [] {
      NoGaps(k, k');
      NoGaps(s, s');
      SameScan(gaps, k, s, base);
    } else {
      var g := gaps[0];
      GapParts(gaps, k, k');
      GapParts(gaps, s, s');
      if g.d == 0 {
        GapScan(gaps, k, s, k', s', base);
        ScanGaps(gaps[1..], AfterWas(g, k), AfterWas(g, s), AfterNow(g, k'), AfterNow(g, s'), base + |g.was|);
        AgreeGap(gaps, k, s, k', s', base);
      } else if IsSpace(k[0]) {
        CutSame(k, k', g.d, 0);
        AdvanceFits(gaps, 1, k, k');
        AdvanceFits(gaps, 1, s, s');
        AdvanceBlanks(gaps, 1);
        ScanGaps(Advance(gaps, 1), k[1..], s[1..], k'[1..], s'[1..], base + 1);
        AgreeSpace(gaps, k, s, k', s', base);
      } else {
        CutSame(k, k', g.d, 0);
        LenGaps(gaps, k, s, k', s');
        if TokenLen(k, s).Err? {
          AgreeError(gaps, k, s, k', s', base);
        } else {
          var n := TokenLen(k, s).value;
          var m := Moved(gaps, n);
          SkipFits(gaps, n, k, k');
          SkipFits(gaps, n, s, s');
          ScanGaps(Skip(gaps, n), k[n..], s[n..], k'[m..], s'[m..], base + n);
          AgreeToken(gaps, k, s, k', s', base);
        }
      }
    }
  }

  lemma SameScan(gaps: seq<Gap>, k: string, s: string, base: nat)
    requires gaps == [] && |k| == |s|
    ensures Agree(gaps, k, s, k, s, base)
  {
    hide Texts, Spans;
    SpansTexts(k, s, base);
  }

  lemma GapScan(gaps: seq<Gap>, k: string, s: string, k': string, s': string, base: nat)
    requires gaps != [] && gaps[0].d == 0 && AllBlank(gaps) && |k| == |s| && |k'| == |s'|
    requires Fits(gaps, k, k') && Fits(gaps, s, s')
    ensures var g := gaps[0];
            && FitsHead(g, k, k') && FitsHead(g, s, s') && |g.was| > 0
            && Texts(k, s) == Texts(AfterWas(g, k), AfterWas(g, s))
            && Spans(k, s, base) == Spans(AfterWas(g, k), AfterWas(g, s), base + |g.was|)
            && Texts(k', s') == Texts(AfterNow(g, k'), AfterNow(g, s'))
  {
    hide Fits, AllBlank, Texts, Spans, BlankText;
    var g := gaps[0];
    GapParts(gaps, k, k');
    GapParts(gaps, s, s');
    BlankStart(g.was); BlankStart(g.now);
    assert k[0..] == k && s[0..] == s && k'[0..] == k' && s'[0..] == s';
    BlankScan(g.was, k, s, base);
    BlankScan(g.now, k', s', base);
  }

  lemma CleanLater(spans: seq<Span>, at: nat, marks: seq<nat>)
    requires forall i :: 0 <= i < |spans| ==> at <= spans[i].from
    ensures Clean(spans, [at] + marks) <==> Clean(spans, marks)
  {
    var all := [at] + marks;
    assert forall j :: 0 <= j < |marks| ==> all[j + 1] == marks[j];
  }

  lemma AgreeGap(gaps: seq<Gap>, k: string, s: string, k': string, s': string, base: nat)
    requires gaps != [] && gaps[0].d == 0 && |k| == |s| && |k'| == |s'|
    requires FitsHead(gaps[0], k, k') && FitsHead(gaps[0], s, s')
    requires var g := gaps[0];
            && Texts(k, s) == Texts(AfterWas(g, k), AfterWas(g, s))
            && Spans(k, s, base) == Spans(AfterWas(g, k), AfterWas(g, s), base + |g.was|)
            && Texts(k', s') == Texts(AfterNow(g, k'), AfterNow(g, s'))
            && Agree(gaps[1..], AfterWas(g, k), AfterWas(g, s), AfterNow(g, k'), AfterNow(g, s'), base + |g.was|)
    ensures Agree(gaps, k, s, k', s', base)
  {
    hide Texts, Spans, Clean, Marks, AfterWas, AfterNow;
    var g := gaps[0];
    var later := Marks(gaps[1..], base + |g.was|);
    GapMark(gaps, base);
    AfterLengths(g, k, s);
    if Spans(k, s, base).Ok? {
      SpansFrom(AfterWas(g, k), AfterWas(g, s), base + |g.was|);
      CleanLater(Spans(k, s, base).value, base, later);
    }
  }

  lemma GapMark(gaps: seq<Gap>, base: nat)
    requires gaps != [] && gaps[0].d == 0
    ensures var g := gaps[0];
            var later := Marks(gaps[1..], base + |g.was|);
            Marks(gaps, base) == if g.was == g.now then later else [base] + later
  {
  }

  lemma AfterLengths(g: Gap, k: string, s: string)
    requires |k| == |s| && g.d + |g.was| <= |k|
    ensures |AfterWas(g, k)| == |AfterWas(g, s)|
  {
  }

  lemma AgreeSpace(gaps: seq<Gap>, k: string, s: string, k': string, s': string, base: nat)
    requires gaps != [] && gaps[0].d > 0 && |k| == |s| && |k'| == |s'|
    requires k != [] && k' != [] && IsSpace(k[0]) && k'[0] == k[0]
    requires Agree(Advance(gaps, 1), k[1..], s[1..], k'[1..], s'[1..], base + 1)
    ensures Agree(gaps, k, s, k', s', base)
  {
    hide Texts, Spans, Clean, IsSpace, Marks, Advance;
    SpaceScan(k, s, base);
    SpaceScan(k', s', base);
    AdvanceMarks(gaps, 1, base);
  }

  lemma AgreeError(gaps: seq<Gap>, k: string, s: string, k': string, s': string, base: nat)
    requires k != [] && k' != [] && |k| == |s| && |k'| == |s'|
    requires !IsSpace(k[0]) && k'[0] == k[0]
    requires TokenLen(k, s).Err? && TokenLen(k', s') == TokenLen(k, s)
    ensures Agree(gaps, k, s, k', s', base)
  {
  }

  lemma TokenScan(k: string, s: string, base: nat)
    requires k != [] && |k| == |s| && !IsSpace(k[0]) && TokenLen(k, s).Ok?
    ensures var n := TokenLen(k, s).value;
            && Spans(k, s, base) == (match Spans(k[n..], s[n..], base + n)
                 case Err(e) => Err(e)
                 case Ok(spans) => Ok([Span(base, base + n)] + spans))
            && Texts(k, s) == (match Texts(k[n..], s[n..])
                 case Err(e) => Err(e)
                 case Ok(texts) => Ok([k[..n]] + texts))
  {
  }

  lemma AgreeToken(gaps: seq<Gap>, k: string, s: string, k': string, s': string, base: nat)
    requires gaps != [] && gaps[0].d > 0 && AllBlank(gaps) && |k| == |s| && |k'| == |s'|
    requires Fits(gaps, k, k') && k != [] && k' != [] && !IsSpace(k[0]) && k'[0] == k[0]
    requires TokenLen(k, s).Ok? && SameLen(gaps, TokenLen(k, s), TokenLen(k', s'))
    requires var n := TokenLen(k, s).value;
             var m := Moved(gaps, n);
             m <= |k'| && Agree(Skip(gaps, n), k[n..], s[n..], k'[m..], s'[m..], base + n)
    ensures Agree(gaps, k, s, k', s', base)
  {
    hide Fits, AllBlank, TokenLen, IsSpace, Texts, Spans, Clean, Marks, Skip, Unchanged, Lands, Moved;
    var n := TokenLen(k, s).value;
    var m := Moved(gaps, n);
    TokenScan(k, s, base);
    TokenScan(k', s', base);
    var more := Spans(k[n..], s[n..], base + n);
    if more.Ok? {
      SkipMarks(gaps, n, base);
      SpansFrom(k[n..], s[n..], base + n);
      CleanToken(n, more.value, Marks(gaps, base), Marks(Skip(gaps, n), base + n), base, base + gaps[0].d);
      SameSlice(gaps, n, k, k');
      HeadTail(k[..n], Texts(k[n..], s[n..]).value, k'[..m], Texts(k'[m..], s'[m..]).value);
    }
  }

  lemma HeadTail(x: string, xs: seq<string>, y: string, ys: seq<string>)
    ensures [x] + xs == [y] + ys <==> x == y && xs == ys
  {
    if [x] + xs == [y] + ys {
      assert ([x] + xs)[0] == ([y] + ys)[0];
      assert ([x] + xs)[1..] == xs && ([y] + ys)[1..] == ys;
    }
  }
}
