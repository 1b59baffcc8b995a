/** What replacing runs of blanks does to a token scan. */
module TokenGaps {
  import opened RustLexer
  import opened DocGaps
  import opened TokenCuts

  // A blanked comment line: blanks and a newline.
  predicate BlankText(w: string) {
    && |w| >= 4 && w[|w| - 1] == '\n'
    && forall i :: 0 <= i < |w| - 1 ==> w[i] in " \t"
  }

  ghost predicate AllBlank(gaps: seq<Gap>) {
    forall i :: 0 <= i < |gaps| ==> BlankText(gaps[i].was) && BlankText(gaps[i].now)
  }

  lemma BlankLines(gaps: seq<Gap>, a: string, b: string)
    requires Fits(gaps, a, b) && DocLines(gaps, a, b)
    ensures AllBlank(BlankGaps(gaps))
  {
    hide BlankLine, DocText, Indent, BlankText;
    if gaps != [] {
      BlankLines(gaps[1..], AfterWas(gaps[0], a), AfterNow(gaps[0], b));
      BlankLineText(gaps[0].was);
      BlankLineText(gaps[0].now);
      BlankGapsStep(gaps);
    }
  }

  lemma BlankLineText(line: string)
    requires DocText(line)
    ensures BlankText(BlankLine(line))
  {
  }

  /* ---- Positions in the two texts ---- */

  // `n` characters of the first text end outside every gap.
  ghost predicate Lands(gaps: seq<Gap>, n: nat) {
    gaps == [] || n <= gaps[0].d ||
    (n >= gaps[0].d + |gaps[0].was| && Lands(gaps[1..], n - gaps[0].d - |gaps[0].was|))
  }

  // The length in the second text of what takes `n` characters in the first.
  function Moved(gaps: seq<Gap>, n: nat): nat {
    if gaps == [] || n <= gaps[0].d then n
    else
      var g := gaps[0];
      g.d + |g.now| + if n <= g.d + |g.was| then 0 else Moved(gaps[1..], n - g.d - |g.was|)
  }

  function Skip(gaps: seq<Gap>, n: nat): seq<Gap> {
    if gaps == [] || n <= gaps[0].d then Advance(gaps, n)
    else Skip(gaps[1..], if n <= gaps[0].d + |gaps[0].was| then 0 else n - gaps[0].d - |gaps[0].was|)
  }

  // No gap among the first `n` characters changes.
  ghost predicate Unchanged(gaps: seq<Gap>, n: nat) {
    gaps == [] || n <= gaps[0].d ||
    (gaps[0].was == gaps[0].now &&
     Unchanged(gaps[1..], if n <= gaps[0].d + |gaps[0].was| then 0 else n - gaps[0].d - |gaps[0].was|))
  }

  // Offsets in the first text at which changed gaps start.
  function Marks(gaps: seq<Gap>, base: nat): seq<nat> {
    if gaps == [] then []
    else
      var g := gaps[0];
      (if g.was == g.now then [] else [base + g.d]) + Marks(gaps[1..], base + g.d + |g.was|)
  }

  lemma AdvanceBlanks(gaps: seq<Gap>, n: nat)
    requires gaps != [] && n <= gaps[0].d && AllBlank(gaps)
    ensures AllBlank(Advance(gaps, n))
  {
  }

  lemma {:induction false} SkipFits(gaps: seq<Gap>, n: nat, k: string, k': string)
    requires Fits(gaps, k, k') && n <= |k| && Lands(gaps, n) && AllBlank(gaps)
    ensures Moved(gaps, n) <= |k'| && Fits(Skip(gaps, n), k[n..], k'[Moved(gaps, n)..]) && AllBlank(Skip(gaps, n))
    decreases |gaps|
  {
    hide Fits, BlankText;
    if gaps == [] || n <= gaps[0].d {
      AdvanceFits(gaps, n, k, k');
    } else {
      var g := gaps[0];
      FitsUnfold(gaps, k, k');
      FitsLengths(g, k, k');
      SkipFits(gaps[1..], n - g.d - |g.was|, AfterWas(g, k), AfterNow(g, k'));
      assert Moved(gaps[1..], 0) == 0;
      DropDrop(k, g.d + |g.was|, n);
      DropDrop(k', g.d + |g.now|, Moved(gaps, n));
    }
  }

  // The slices are equal exactly when no gap in them changes.
  lemma {:induction false} SameSlice(gaps: seq<Gap>, n: nat, k: string, k': string)
    requires Fits(gaps, k, k') && n <= |k| && Lands(gaps, n) && AllBlank(gaps) && Moved(gaps, n) <= |k'|
    ensures k[..n] == k'[..Moved(gaps, n)] <==> Unchanged(gaps, n)
    decreases |gaps|
  {
    hide Fits, BlankText;
    if gaps == [] {
      NoGaps(k, k');
    } else if n <= gaps[0].d {
      AdvanceFits(gaps, n, k, k');
    } else {
      var g := gaps[0];
      FitsUnfold(gaps, k, k');
      FitsLengths(g, k, k');
      var n', k1, k1' := n - g.d - |g.was|, AfterWas(g, k), AfterNow(g, k');
      assert Moved(gaps[1..], 0) == 0;
      SameSlice(gaps[1..], n', k1, k1');
      var m' := Moved(gaps[1..], n');
      assert k[..n] == k[..g.d] + (g.was + k1[..n']) by { Split(k, g.d, g.was, n); }
      assert k'[..Moved(gaps, n)] == k[..g.d] + (g.now + k1'[..m']) by { Split(k', g.d, g.now, Moved(gaps, n)); }
      LinesEqual(g.was, g.now, k1[..n'], k1'[..m']);
      Cancel(k[..g.d], g.was + k1[..n'], g.now + k1'[..m']);
    }
  }

  lemma Split(k: string, d: nat, w: string, n: nat)
    requires d + |w| <= n <= |k| && w <= k[d..]
    ensures k[..n] == k[..d] + (w + k[d + |w|..][..n - d - |w|])
  {
  }

  lemma Cancel(p: string, x: string, y: string)
    ensures p + x == p + y <==> x == y
  {
    if p + x == p + y {
      assert (p + x)[|p|..] == x && (p + y)[|p|..] == y;
    }
  }

  // Each of `w` and `w'` ends at its only newline.
  lemma LinesEqual(w: string, w': string, x: string, y: string)
    requires BlankText(w) && BlankText(w')
    ensures w + x == w' + y <==> w == w' && x == y
  {
    if w + x == w' + y {
      var a, b := w + x, w' + y;
      assert a[|w| - 1] == '\n' && b[|w'| - 1] == '\n';
      if |w| < |w'| { assert false; }
      if |w'| < |w| { assert false; }
      assert a[..|w|] == w && b[..|w'|] == w' && a[|w|..] == x && b[|w'|..] == y;
    }
  }

  /* ---- Literals that run over blanks ---- */

  lemma {:induction false} BlankStrBody(w: string, x: string)
    requires forall i :: 0 <= i < |w| ==> w[i] in " \t\n"
    ensures StrBody(w + x) == StrBody(x).Plus(|w|)
  {
    if w == [] {
      assert w + x == x;
    } else {
      assert (w + x)[1..] == w[1..] + x;
      BlankStrBody(w[1..], x);
    }
  }

  lemma {:induction false} BlankRawBody(w: string, x: string, hashes: nat)
    requires forall i :: 0 <= i < |w| ==> w[i] in " \t\n"
    ensures RawBody(w + x, hashes) == RawBody(x, hashes).Plus(|w|)
  {
    if w == [] {
      assert w + x == x;
    } else {
      assert (w + x)[1..] == w[1..] + x;
      BlankRawBody(w[1..], x, hashes);
      NotCloser(w + x, hashes);
    }
  }

  lemma NotCloser(a: string, hashes: nat)
    requires a != [] && a[0] in " \t\n"
    ensures !(Closer(hashes) <= a)
  {
  }

  // The literal ends at corresponding places, or in neither text.
  ghost predicate SameEnd(gaps: seq<Gap>, b: Body, b': Body) {
    && b.closed == b'.closed
    && (b.closed ==> Lands(gaps, b.len) && b'.len == Moved(gaps, b.len))
  }

  lemma EndAfter(gaps: seq<Gap>, n: nat, b: Body, b': Body)
    requires gaps != [] && n <= gaps[0].d && SameEnd(Advance(gaps, n), b, b')
    ensures SameEnd(gaps, b.Plus(n), b'.Plus(n))
  {
  }

  lemma EndAfterGap(gaps: seq<Gap>, b: Body, b': Body)
    requires gaps != [] && SameEnd(gaps[1..], b, b') && (b.closed ==> b.len > 0) && |gaps[0].was| > 0
    ensures SameEnd(gaps, b.Plus(gaps[0].d + |gaps[0].was|), b'.Plus(gaps[0].d + |gaps[0].now|))
  {
  }

  lemma GapParts(gaps: seq<Gap>, k: string, k': string)
    requires gaps != [] && Fits(gaps, k, k') && AllBlank(gaps)
    ensures var g := gaps[0];
            && FitsHead(g, k, k') && BlankText(g.was) && BlankText(g.now)
            && k[g.d..] == g.was + AfterWas(g, k) && k'[g.d..] == g.now + AfterNow(g, k')
            && Fits(gaps[1..], AfterWas(g, k), AfterNow(g, k')) && AllBlank(gaps[1..])
            && Cut(k, k', g.d)
  {
  }

  lemma BlankStart(w: string)
    requires BlankText(w)
    ensures |w| >= 2 && w[0] in " \t" && w[1] in " \t"
    ensures forall i :: 0 <= i < |w| ==> w[i] in " \t\n"
  {
  }

  lemma {:induction false} StrGaps(gaps: seq<Gap>, k: string, k': string)
    requires Fits(gaps, k, k') && AllBlank(gaps)
    ensures SameEnd(gaps, StrBody(k), StrBody(k'))
    decreases |k|
  {
    hide Fits, BlankText, Cut, SameEnd;
    if gaps == [] {
      NoGaps(k, k');
      SameText(gaps, StrBody(k));
    } else {
      var g := gaps[0];
      GapParts(gaps, k, k');
      BlankStart(g.was); BlankStart(g.now);
      var x, x' := AfterWas(g, k), AfterNow(g, k');
      if g.d == 0 {
        StrGaps(gaps[1..], x, x');
        BlankStrBody(g.was, x); BlankStrBody(g.now, x');
        assert k[0..] == k && k'[0..] == k';
        EndAfterGap(gaps, StrBody(x), StrBody(x'));
      } else {
        CutSame(k, k', g.d, 0);
        StrTurn(gaps, k, k');
      }
    }
  }

  lemma SameText(gaps: seq<Gap>, b: Body)
    requires gaps == []
    ensures SameEnd(gaps, b, b)
  {
  }

  // One turn of the string loop before the gap.
  lemma StrTurn(gaps: seq<Gap>, k: string, k': string)
    requires Fits(gaps, k, k') && AllBlank(gaps) && gaps != [] && gaps[0].d > 0
    requires k != [] && k' != [] && k[0] == k'[0]
    ensures SameEnd(gaps, StrBody(k), StrBody(k'))
    decreases |k|, 0
  {
    hide Fits, BlankText, Cut, SameEnd, Advance, FitsHead, AllBlank;
    var g := gaps[0];
    GapParts(gaps, k, k');
    FitsLengths(g, k, k');
    BlankStart(g.was); BlankStart(g.now);
    if k[0] == '"' {
      QuoteEnds(gaps);
    } else if k[0] == '\\' && g.d == 1 {
      var x, x' := AfterWas(g, k), AfterNow(g, k');
      StrGaps(gaps[1..], x, x');
      EscapedBlank(g.was, k, x);
      EscapedBlank(g.now, k', x');
      EndAfterGap(gaps, StrBody(x), StrBody(x'));
    } else {
      var n := if k[0] == '\\' then 2 else 1;
      AdvanceFits(gaps, n, k, k');
      AdvanceBlanks(gaps, n);
      StrGaps(Advance(gaps, n), k[n..], k'[n..]);
      EndAfter(gaps, n, StrBody(k[n..]), StrBody(k'[n..]));
    }
  }

  // A backslash hides the first blank of the gap and no more.
  lemma EscapedBlank(w: string, k: string, x: string)
    requires k != [] && k[0] == '\\' && k[1..] == w + x && |w| >= 1
    requires forall i :: 0 <= i < |w| ==> w[i] in " \t\n"
    ensures StrBody(k) == StrBody(x).Plus(1 + |w|)
  {
    assert k[2..] == k[1..][1..] == w[1..] + x;
    BlankStrBody(w[1..], x);
  }

  lemma QuoteEnds(gaps: seq<Gap>)
    requires gaps != [] && gaps[0].d > 0
    ensures SameEnd(gaps, Body(1, true), Body(1, true))
  {
  }

  lemma {:induction false} RawGaps(gaps: seq<Gap>, k: string, k': string, hashes: nat)
    requires Fits(gaps, k, k') && AllBlank(gaps)
    ensures SameEnd(gaps, RawBody(k, hashes), RawBody(k', hashes))
    decreases |k|
  {
    hide Fits, BlankText, Cut, SameEnd, Closer;
    if gaps == [] {
      NoGaps(k, k');
      SameText(gaps, RawBody(k, hashes));
    } else {
      var g := gaps[0];
      GapParts(gaps, k, k');
      BlankStart(g.was); BlankStart(g.now);
      if g.d == 0 {
        var x, x' := AfterWas(g, k), AfterNow(g, k');
        RawGaps(gaps[1..], x, x', hashes);
        BlankRawBody(g.was, x, hashes); BlankRawBody(g.now, x', hashes);
        assert k[0..] == k && k'[0..] == k';
        EndAfterGap(gaps, RawBody(x, hashes), RawBody(x', hashes));
      } else {
        CutCloser(k, k', g.d, hashes);
        if Closer(hashes) <= k {
          CloserEnds(gaps, hashes);
        } else {
          AdvanceFits(gaps, 1, k, k');
          AdvanceBlanks(gaps, 1);
          RawGaps(Advance(gaps, 1), k[1..], k'[1..], hashes);
          EndAfter(gaps, 1, RawBody(k[1..], hashes), RawBody(k'[1..], hashes));
        }
      }
    }
  }

  lemma CloserEnds(gaps: seq<Gap>, hashes: nat)
    requires gaps != [] && 1 + hashes <= gaps[0].d
    ensures SameEnd(gaps, Body(1 + hashes, true), Body(1 + hashes, true))
  {
  }

  // A closer has no blank in it.
  lemma CutCloser(a: string, b: string, d: nat, hashes: nat)
    requires Cut(a, b, d)
    ensures Closer(hashes) <= a <==> Closer(hashes) <= b
    ensures Closer(hashes) <= a ==> 1 + hashes <= d
    ensures d > 0 ==> a != [] && b != []
  {
  }

}
