/** Two texts that differ only in whole `///` comment lines, and what the lexer shows of them. */
module DocGaps {
  import opened RustLexer
  import LexerViews
  import opened LexerSteps
  import opened LexerIdempotence

  // After `d` shared characters one text goes on with `was` and the other with `now`.
  datatype Gap = Gap(d: nat, was: string, now: string)

  ghost predicate FitsHead(g: Gap, a: string, b: string) {
    && g.d <= |a| && g.d <= |b| && a[..g.d] == b[..g.d]
    && g.was <= a[g.d..] && g.now <= b[g.d..]
  }

  // What follows a gap in the first and in the second text.
  function AfterWas(g: Gap, a: string): string
    requires g.d + |g.was| <= |a|
  {
    a[g.d + |g.was|..]
  }

  function AfterNow(g: Gap, b: string): string
    requires g.d + |g.now| <= |b|
  {
    b[g.d + |g.now|..]
  }

  ghost predicate Fits(gaps: seq<Gap>, a: string, b: string) {
    if gaps == [] then a == b
    else
      && FitsHead(gaps[0], a, b)
      && Fits(gaps[1..], AfterWas(gaps[0], a), AfterNow(gaps[0], b))
  }

  // The line boundaries of `str.splitlines`.
  predicate IsLineBreak(c: char) {
    || '\n' <= c <= '\r' || '\U{1c}' <= c <= '\U{1e}'
    || c == '\U{85}' || c == '\U{2028}' || c == '\U{2029}'
  }

  // How many blanks a line starts with.
  function Indent(line: string): (n: nat)
    ensures n <= |line|
    ensures forall i :: 0 <= i < n ==> line[i] in " \t"
    ensures n < |line| ==> line[n] !in " \t"
  {
    if line == [] || line[0] !in " \t" then 0 else 1 + Indent(line[1..])
  }

  // An indented `///` comment with its newline, the only one.
  predicate DocText(line: string) {
    && "///" <= line[Indent(line)..]
    && line[|line| - 1] == '\n'
    && forall i :: 0 <= i < |line| - 1 ==> line[i] != '\n'
  }

  ghost predicate DocHead(g: Gap, a: string, b: string)
    requires FitsHead(g, a, b)
  {
    && DocText(g.was) && DocText(g.now)
    && (g.d > 0 ==> IsLineBreak(a[g.d - 1]))
  }

  // Every gap is a `///` comment line.
  ghost predicate DocLines(gaps: seq<Gap>, a: string, b: string)
    requires Fits(gaps, a, b)
  {
    gaps == [] ||
    (&& DocHead(gaps[0], a, b)
     && DocLines(gaps[1..], AfterWas(gaps[0], a), AfterNow(gaps[0], b)))
  }

  function DocSpan(g: Gap, base: nat): Span
  {
    Span(base + g.d + Indent(g.was), if g.was == [] then base + g.d else base + g.d + |g.was| - 1)
  }

  // Where the first text's comments are, `base` being the offset of its first character.
  function GapSpans(gaps: seq<Gap>, base: nat): seq<Span> {
    if gaps == [] then []
    else
      var g := gaps[0];
      var end := base + g.d + |g.was|;
      [DocSpan(g, base)] + GapSpans(gaps[1..], end)
  }

  ghost predicate Listed(spans: seq<Span>, docs: seq<Span>) {
    forall i :: 0 <= i < |spans| ==> spans[i] in docs
  }

  function Advance(gaps: seq<Gap>, n: nat): seq<Gap>
    requires gaps != [] ==> n <= gaps[0].d
  {
    if gaps == [] then [] else [gaps[0].(d := gaps[0].d - n)] + gaps[1..]
  }

  // What the blanking views show of a comment line.
  function BlankLine(line: string): string {
    line[..Indent(line)] + Spaces(line[Indent(line)..])
  }

  function BlankGaps(gaps: seq<Gap>): seq<Gap> {
    seq(|gaps|, i requires 0 <= i < |gaps| =>
      Gap(gaps[i].d, BlankLine(gaps[i].was), BlankLine(gaps[i].now)))
  }

  /* ---- Positions ---- */

  lemma {:induction false} GapSpansFrom(gaps: seq<Gap>, base: nat)
    ensures forall i :: 0 <= i < |GapSpans(gaps, base)| ==>
      GapSpans(gaps, base)[i].from >= base + gaps[0].d + Indent(gaps[0].was)
  {
    if gaps != [] {
      var g := gaps[0];
      GapSpansFrom(gaps[1..], base + g.d + |g.was|);
    }
  }

  lemma AdvanceSpans(gaps: seq<Gap>, n: nat, base: nat)
    requires gaps != [] ==> n <= gaps[0].d
    ensures GapSpans(Advance(gaps, n), base + n) == GapSpans(gaps, base)
  {
  }

  lemma DropDrop(a: string, n: nat, k: nat)
    requires n <= k <= |a|
    ensures a[n..][k - n..] == a[k..]
  {
  }

  // Cutting `n` characters from the front of `m`.
  lemma TakeDrop(a: string, n: nat, m: nat)
    requires n <= m <= |a|
    ensures a[n..][..m - n] == a[..m][n..] && a[..m][..n] == a[..n]
  {
  }

  lemma AdvanceHead(g: Gap, n: nat, a: string, b: string)
    requires FitsHead(g, a, b) && n <= g.d
    ensures var g' := g.(d := g.d - n);
            && a[..n] == b[..n] && FitsHead(g', a[n..], b[n..])
            && AfterWas(g', a[n..]) == AfterWas(g, a) && AfterNow(g', b[n..]) == AfterNow(g, b)
            && (DocHead(g, a, b) ==> DocHead(g', a[n..], b[n..]))
  {
    hide DocHead, AfterWas, AfterNow;
    TakeDrop(a, n, g.d);
    TakeDrop(b, n, g.d);
    DropDrop(a, n, g.d);
    DropDrop(b, n, g.d);
    AdvanceAfter(g, n, a, b);
    if DocHead(g, a, b) { AdvanceDoc(g, n, a, b); }
  }

  lemma AdvanceAfter(g: Gap, n: nat, a: string, b: string)
    requires g.d + |g.was| <= |a| && g.d + |g.now| <= |b| && n <= g.d
    ensures var g' := g.(d := g.d - n);
            AfterWas(g', a[n..]) == AfterWas(g, a) && AfterNow(g', b[n..]) == AfterNow(g, b)
  {
    DropDrop(a, n, g.d + |g.was|);
    DropDrop(b, n, g.d + |g.now|);
  }

  lemma AdvanceDoc(g: Gap, n: nat, a: string, b: string)
    requires FitsHead(g, a, b) && DocHead(g, a, b) && n <= g.d
    requires var g' := g.(d := g.d - n); FitsHead(g', a[n..], b[n..])
    ensures DocHead(g.(d := g.d - n), a[n..], b[n..])
  {
    hide DocText, IsLineBreak;
  }

  lemma AdvanceFits(gaps: seq<Gap>, n: nat, a: string, b: string)
    requires Fits(gaps, a, b) && n <= |a| && (gaps != [] ==> n <= gaps[0].d)
    ensures n <= |b| && a[..n] == b[..n] && Fits(Advance(gaps, n), a[n..], b[n..])
    ensures DocLines(gaps, a, b) ==> DocLines(Advance(gaps, n), a[n..], b[n..])
  {
    hide FitsHead, DocHead, AfterWas, AfterNow;
    if gaps != [] {
      FitsLengths(gaps[0], a, b);
      AdvanceHead(gaps[0], n, a, b);
      assert Advance(gaps, n)[1..] == gaps[1..];
    }
  }

  lemma FitsLengths(g: Gap, a: string, b: string)
    requires FitsHead(g, a, b)
    ensures g.d + |g.was| <= |a| && g.d + |g.now| <= |b|
  {
  }

  lemma {:induction false} DocSpansFrom(prev: char, a: string, base: nat)
    ensures forall i :: 0 <= i < |DocSpans(prev, a, base)| ==> DocSpans(prev, a, base)[i].from >= base
    decreases |a|
  {
    hide Step, IsDoc, DocSpans;
    if a == [] {
      DocSpansStep(prev, a, base);
    } else {
      var s := Step(prev, a);
      DocSpansFrom(a[s.len - 1], a[s.len..], base + s.len);
      DocSpansStep(prev, a, base);
    }
  }

  // Spans that start after the first token are among those of the rest.
  lemma ListedLater(spans: seq<Span>, prev: char, a: string, base: nat)
    requires a != [] && Listed(spans, DocSpans(prev, a, base))
    requires forall i :: 0 <= i < |spans| ==> spans[i].from > base
    ensures var s := Step(prev, a);
            Listed(spans, DocSpans(a[s.len - 1], a[s.len..], base + s.len))
  {
  }

  /* ---- One comment line ---- */

  lemma {:induction false} LineRunIs(a: string, n: nat)
    requires n < |a| && a[n] == '\n' && forall i :: 0 <= i < n ==> a[i] != '\n'
    ensures LineRun(a) == n
  {
    if n > 0 { LineRunIs(a[1..], n - 1); }
  }

  lemma IndentIsPlain(prev: char, a: string)
    requires a != [] && a[0] in " \t"
    ensures Step(prev, a).kind == Plain
  {
  }

  lemma CommentStep(prev: char, a: string, n: nat)
    requires "//" <= a && n < |a| && a[n] == '\n' && forall i :: 0 <= i < n ==> a[i] != '\n'
    ensures Step(prev, a) == Segment(LineComment, n)
  {
    LineRunIs(a, n);
  }

  // A comment line read from its start: its indent is code and the rest one comment.
  lemma LineStart(prev: char, a: string, line: string)
    requires DocText(line) && line <= a
    ensures var k := Indent(line);
            && k + 1 < |line|
            && (forall p :: 0 <= p < k ==> Step(PrevAt(prev, a, p), a[p..]).kind == Plain)
            && Step(PrevAt(prev, a, k), a[k..]) == Segment(LineComment, |line| - 1 - k)
  {
    hide Step, Indent, DocText;
    var k, n := Indent(line), |line| - 1;
    LineShape(line);
    forall p | 0 <= p < k ensures Step(PrevAt(prev, a, p), a[p..]).kind == Plain {
      assert a[p..][0] == a[p] == line[p];
      IndentIsPlain(PrevAt(prev, a, p), a[p..]);
    }
    var c := a[k..];
    forall i | 0 <= i <= n - k ensures c[i] == line[k + i] { assert c[i] == a[k + i]; }
    CommentStep(PrevAt(prev, a, k), c, n - k);
  }

  lemma LineCut(a: string, line: string, k: nat)
    requires line <= a && k + 1 < |line| && line[|line| - 1] == '\n'
    ensures var c, n := a[k..], |line| - 1 - k;
            && a[..k] == line[..k] && c[..n] == line[k..|line| - 1] && c[n..] != []
            && c[n..][0] == '\n' && c[n..][1..] == a[|line|..]
  {
  }

  lemma ReadLine(v: View, prev: char, a: string, line: string)
    requires Blanking(v) && DocText(line) && line <= a
    ensures Render(v, prev, a) == BlankLine(line) + Render(v, '\n', a[|line|..])
  {
    hide Render, Indent, DocText, PrevAt, Spaces, BlankLine;
    var k := Indent(line);
    LineShape(line);
    IndentShown(v, prev, a, line, k);
    CommentLine(v, prev, a, line, k);
    BlankLineCut(line);
    Regroup(Render(v, prev, a), line[..k], Render(v, PrevAt(prev, a, k), a[k..]), Spaces(line[k..|line| - 1]),
            Render(v, '\n', a[|line|..]));
  }

  lemma IndentShown(v: View, prev: char, a: string, line: string, k: nat)
    requires DocText(line) && line <= a && k == Indent(line)
    ensures k <= |line| && Render(v, prev, a) == line[..k] + Render(v, PrevAt(prev, a, k), a[k..])
  {
    hide Step, Render, Indent, DocText, PrevAt;
    LineStart(prev, a, line);
    PlainRun(v, prev, a, k, 0);
    assert a[..k] == line[..k];
  }

  lemma CommentLine(v: View, prev: char, a: string, line: string, k: nat)
    requires Blanking(v) && DocText(line) && line <= a && k == Indent(line) && k + 1 < |line|
    ensures Render(v, PrevAt(prev, a, k), a[k..]) ==
            Spaces(line[k..|line| - 1]) + (['\n'] + Render(v, '\n', a[|line|..]))
  {
    hide Step, Render, Indent, DocText, PrevAt, Spaces;
    LineShape(line);
    LineStart(prev, a, line);
    LineCut(a, line, k);
    CommentShown(v, PrevAt(prev, a, k), a[k..], |line| - 1 - k);
  }

  // A comment and its newline.
  lemma CommentShown(v: View, prev: char, c: string, n: nat)
    requires Blanking(v) && 0 < n < |c| && Step(prev, c) == Segment(LineComment, n) && c[n] == '\n'
    ensures Render(v, prev, c) == Spaces(c[..n]) + (['\n'] + Render(v, '\n', c[n..][1..]))
  {
    hide Step, Render, Piece, Spaces;
    RenderStep(v, prev, c);
    CommentPiece(v, Step(prev, c), c);
    BlankIsPlain(c[n - 1], c[n..]);
    PlainStep(v, c[n - 1], c[n..], 0);
  }

  lemma Regroup(whole: string, w: string, m: string, x: string, z: string)
    requires whole == w + m && m == x + (['\n'] + z)
    ensures whole == (w + (x + ['\n'])) + z
  {
  }

  lemma BlankLineCut(line: string)
    requires DocText(line)
    ensures BlankLine(line) == line[..Indent(line)] + (Spaces(line[Indent(line)..|line| - 1]) + ['\n'])
  {
    hide Indent, Spaces, DocText;
    LineShape(line);
    var k, n := Indent(line), |line| - 1;
    assert line[k..][..n - k] == line[k..n] && line[k..][n - k] == line[n];
    SpacesLine(line[k..]);
  }

  lemma SpacesLine(a: string)
    requires a != [] && a[|a| - 1] == '\n'
    ensures Spaces(a) == Spaces(a[..|a| - 1]) + ['\n']
  {
  }

  lemma ReadLineDocs(prev: char, a: string, line: string, spans: seq<Span>, base: nat)
    requires DocText(line) && line <= a
    requires Listed(spans, DocSpans(prev, a, base))
    requires forall i :: 0 <= i < |spans| ==> spans[i].from >= base + |line|
    ensures Listed(spans, DocSpans('\n', a[|line|..], base + |line|))
  {
    hide Step, DocSpans, Indent, DocText, PrevAt, Listed;
    var k := Indent(line);
    LineShape(line);
    LineStart(prev, a, line);
    LineCut(a, line, k);
    var c, prev', n := a[k..], PrevAt(prev, a, k), |line| - 1 - k;
    assert DocSpans(prev, a, base) == DocSpans(prev', c, base + k) by { PlainRun(Kept, prev, a, k, base); }
    var d, at := c[n..], base + k + n;
    assert Listed(spans, DocSpans(c[n - 1], d, at)) by { ListedLater(spans, prev', c, base + k); }
    assert DocSpans(c[n - 1], d, at) == DocSpans('\n', d[1..], at + 1) by {
      BlankIsPlain(c[n - 1], d);
      PlainStep(Kept, c[n - 1], d, at);
    }
    assert at + 1 == base + |line|;
  }

  lemma LineShape(line: string)
    requires DocText(line)
    ensures var k := Indent(line);
            && k + 4 <= |line| && line[k] == line[k + 1] == line[k + 2] == '/'
            && line[|line| - 1] == '\n'
            && (forall i :: 0 <= i < |line| - 1 ==> line[i] != '\n')
            && (forall i :: 0 <= i < k ==> line[i] in " \t")
  {
  }

  lemma CommentPiece(v: View, s: Segment, a: string)
    requires Blanking(v) && s.kind.LineComment? && s.len <= |a|
    ensures Piece(v, s, a) == Spaces(a[..s.len])
  {
  }

  /* ---- The same token in both texts ---- */

  // A token that starts before a comment line ends before it.
  lemma TokenStopsAtGap(prev: char, g: Gap, a: string, b: string, base: nat)
    requires FitsHead(g, a, b) && DocHead(g, a, b) && g.d > 0
    requires DocSpan(g, base) in DocSpans(prev, a, base)
    ensures var s := Step(prev, a);
            && s.len <= g.d && (s.kind.LineComment? ==> s.len < g.d && a[s.len] == '\n')
  {
    hide Step, DocSpans, IsDoc, Indent, DocText;
    var s := Step(prev, a);
    var k := Indent(g.was);
    FitsLengths(g, a, b);
    LineShape(g.was);
    var spans: seq<Span> := [DocSpan(g, base)];
    assert Listed(spans, DocSpans(prev, a, base));
    ListedLater(spans, prev, a, base);
    DocSpansFrom(a[s.len - 1], a[s.len..], base + s.len);
    assert spans[0] in DocSpans(a[s.len - 1], a[s.len..], base + s.len);
    assert s.len <= g.d + k;
    forall p | g.d <= p < g.d + |g.was| - 1
      ensures a[p] != '\n' && (p <= g.d + k ==> a[p] in " \t/") && (p < g.d + k ==> a[p] in " \t") {
      assert a[p] == a[g.d..][p - g.d] == g.was[p - g.d];
    }
    if s.kind == Plain { PlainIsOne(prev, a); } else { StepEnds(prev, a); }
  }

  lemma PlainIsOne(prev: char, a: string)
    requires a != [] && Step(prev, a).kind == Plain
    ensures Step(prev, a).len == 1
  {
  }

  // No token appears because the comment line after it changed.
  lemma OpenerAtGap(a: string, b: string, d: nat)
    requires 0 < d < |b| && d <= |a| && a[..d] == b[..d] && IsLineBreak(b[d - 1])
    requires RawOpen(b).Some?
    ensures RawOpen(a) == RawOpen(b)
  {
    hide RawOpen;
    var n := RawOpen(b).value.len;
    OpenerChars(b);
    if n >= d { assert false; }
    assert a[..n] == a[..d][..n] == b[..d][..n] == b[..n];
    RawOpenPrefix(b, a);
  }

  lemma CharAtGap(a: string, b: string, d: nat)
    requires 0 < d < |b| && d <= |a| && a[..d] == b[..d] && IsLineBreak(b[d - 1]) && b[d] != '\''
    requires CharLen(b).Some?
    ensures CharLen(a) == CharLen(b)
  {
    hide CharLen;
    var n := CharLen(b).value;
    CharForeign(b);
    if n > d { assert false; }
    assert a[..n] == a[..d][..n] == b[..d][..n] == b[..n];
    CharLenPrefix(b, a);
  }

  lemma PlainAtGap(prev: char, g: Gap, a: string, b: string)
    requires FitsHead(g, a, b) && DocHead(g, a, b) && g.d > 0 && Step(prev, a).kind == Plain
    ensures Step(prev, b).kind == Plain
  {
    hide Indent, DocText, AfterWas, AfterNow, Step, RawOpen, CharLen;
    var d := g.d;
    FitsLengths(g, a, b);
    LineShape(g.now);
    assert b[d..][0] == b[d] == g.now[0];
    assert b[d - 1] == b[..d][d - 1] == a[..d][d - 1] == a[d - 1];
    assert b[0] == b[..d][0] == a[..d][0] == a[0];
    assert d > 1 ==> b[1] == b[..d][1] == a[..d][1] == a[1];
    if RawOpen(b).Some? { OpenerAtGap(a, b, d); }
    if CharLen(b).Some? { CharAtGap(a, b, d); }
    StillPlain(prev, a, b);
  }

  lemma StillPlain(prev: char, a: string, b: string)
    requires a != [] && b != [] && Step(prev, a).kind == Plain
    requires b[0] == a[0]
    requires |b| > 1 && !IsLineBreak(a[0]) ==> |a| > 1 && b[1] == a[1]
    requires RawOpen(b).Some? ==> RawOpen(a) == RawOpen(b)
    requires CharLen(b).Some? ==> CharLen(a) == CharLen(b)
    ensures Step(prev, b).kind == Plain
  {
  }

  lemma TokenAtGap(prev: char, g: Gap, a: string, b: string, base: nat)
    requires FitsHead(g, a, b) && DocHead(g, a, b) && g.d > 0
    requires DocSpan(g, base) in DocSpans(prev, a, base)
    ensures Step(prev, a).len <= g.d && b != [] && Step(prev, b) == Step(prev, a)
  {
    hide Step, DocSpans, DocSpan, Indent, DocText;
    var s := Step(prev, a);
    TokenStopsAtGap(prev, g, a, b, base);
    FitsLengths(g, a, b);
    LineShape(g.was);
    if s.kind == Plain {
      PlainAtGap(prev, g, a, b);
      PlainIsOne(prev, a);
      PlainIsOne(prev, b);
    } else {
      assert a[..s.len] == a[..g.d][..s.len] == b[..g.d][..s.len] == b[..s.len];
      if s.len < g.d { assert b[s.len] == b[..g.d][s.len] == a[..g.d][s.len] == a[s.len]; }
      SamePrevRefl(prev, a);
      StepPrefix(prev, prev, a, b);
    }
  }

  /* ---- The views ---- */

  lemma FitsPrepend(g: Gap, gaps: seq<Gap>, k: string, k': string)
    requires g.d == 0 && Fits(gaps, k, k')
    ensures Fits([g] + gaps, g.was + k, g.now + k')
  {
  }

  lemma FitsFold(gaps: seq<Gap>, a: string, b: string)
    requires gaps != [] && FitsHead(gaps[0], a, b)
    requires Fits(gaps[1..], AfterWas(gaps[0], a), AfterNow(gaps[0], b))
    ensures Fits(gaps, a, b)
  {
  }

  lemma FitsShared(gaps: seq<Gap>, p: string, k: string, k': string)
    requires gaps != [] ==> |p| <= gaps[0].d
    requires Fits(Advance(gaps, |p|), k, k')
    ensures Fits(gaps, p + k, p + k')
  {
    hide Fits;
    if gaps == [] {
      NoGaps(k, k');
      NoGaps(p + k, p + k');
    } else {
      var g := gaps[0];
      var g' := g.(d := g.d - |p|);
      FitsUnfold(Advance(gaps, |p|), k, k');
      assert Advance(gaps, |p|)[1..] == gaps[1..];
      var a, b := p + k, p + k';
      assert a[|p|..] == k && b[|p|..] == k';
      DropDrop(a, |p|, g.d); DropDrop(b, |p|, g.d);
      DropDrop(a, |p|, g.d + |g.was|); DropDrop(b, |p|, g.d + |g.now|);
      assert a[..g.d] == p + k[..g'.d] && b[..g.d] == p + k'[..g'.d];
      FitsFold(gaps, a, b);
    }
  }

  lemma NoGaps(a: string, b: string)
    ensures Fits([], a, b) <==> a == b
  {
  }

  lemma FitsUnfold(gaps: seq<Gap>, a: string, b: string)
    requires gaps != [] && Fits(gaps, a, b)
    ensures FitsHead(gaps[0], a, b)
    ensures Fits(gaps[1..], AfterWas(gaps[0], a), AfterNow(gaps[0], b))
  {
  }

  lemma {:induction false} LexGaps(v: View, prev: char, gaps: seq<Gap>, a: string, b: string, base: nat)
    requires Blanking(v) && Fits(gaps, a, b) && DocLines(gaps, a, b)
    requires Listed(GapSpans(gaps, base), DocSpans(prev, a, base))
    ensures Fits(BlankGaps(gaps), Render(v, prev, a), Render(v, prev, b))
    decreases |a|
  {
    hide Step, Render, DocSpans, Piece, Fits, FitsHead, DocHead, Indent, DocText, BlankLine, GapSpans, Listed,
         BlankGaps, Advance, DocLines;
    if gaps == [] {
      NoBlankGaps(gaps);
      NoGaps(a, b);
      NoGaps(Render(v, prev, a), Render(v, prev, b));
    } else {
      var g, more := gaps[0], gaps[1..];
      FitsUnfold(gaps, a, b);
      FitsLengths(g, a, b);
      BlankGapsStep(gaps);
      if g.d == 0 {
        GapAtFront(v, prev, gaps, a, b, base);
        LexGaps(v, '\n', more, AfterWas(g, a), AfterNow(g, b), base + |g.was|);
        FitsPrepend(Gap(0, BlankLine(g.was), BlankLine(g.now)), BlankGaps(more),
                    Render(v, '\n', AfterWas(g, a)), Render(v, '\n', AfterNow(g, b)));
      } else {
        TokenAtFront(v, prev, gaps, a, b, base);
        var n := Step(prev, a).len;
        LexGaps(v, a[n - 1], Advance(gaps, n), a[n..], b[n..], base + n);
        AdvanceBlank(gaps, n);
        FitsShared(BlankGaps(gaps), Piece(v, Step(prev, a), a), Render(v, a[n - 1], a[n..]), Render(v, a[n - 1], b[n..]));
      }
    }
  }

  lemma NoBlankGaps(gaps: seq<Gap>)
    ensures gaps == [] ==> BlankGaps(gaps) == []
  {
  }

  lemma BlankGapsStep(gaps: seq<Gap>)
    requires gaps != []
    ensures var g := gaps[0];
            BlankGaps(gaps) == [Gap(g.d, BlankLine(g.was), BlankLine(g.now))] + BlankGaps(gaps[1..])
  {
  }

  lemma AdvanceBlank(gaps: seq<Gap>, n: nat)
    requires gaps != [] && n <= gaps[0].d
    ensures BlankGaps(gaps) != [] && BlankGaps(gaps)[0].d == gaps[0].d
    ensures BlankGaps(Advance(gaps, n)) == Advance(BlankGaps(gaps), n)
  {
    hide BlankLine;
    assert Advance(gaps, n)[0].was == gaps[0].was;
  }

  lemma TokenAtFront(v: View, prev: char, gaps: seq<Gap>, a: string, b: string, base: nat)
    requires Blanking(v) && gaps != [] && gaps[0].d > 0
    requires Fits(gaps, a, b) && DocLines(gaps, a, b)
    requires Listed(GapSpans(gaps, base), DocSpans(prev, a, base))
    ensures a != []
    ensures var s := Step(prev, a);
            var n, last := s.len, a[s.len - 1];
            && n <= gaps[0].d && n <= |b| && |Piece(v, s, a)| == n
            && Fits(Advance(gaps, n), a[n..], b[n..]) && DocLines(Advance(gaps, n), a[n..], b[n..])
            && Listed(GapSpans(Advance(gaps, n), base + n), DocSpans(last, a[n..], base + n))
            && Render(v, prev, a) == Piece(v, s, a) + Render(v, last, a[n..])
            && Render(v, prev, b) == Piece(v, s, a) + Render(v, last, b[n..])
  {
    hide Step, Render, DocSpans, Piece, Fits, FitsHead, DocHead, Indent, DocText, Advance, GapSpans, DocSpan;
    FitsUnfold(gaps, a, b);
    FitsLengths(gaps[0], a, b);
    FirstSpan(gaps, DocSpans(prev, a, base), base);
    TokenAtGap(prev, gaps[0], a, b, base);
    var s := Step(prev, a);
    AdvanceFits(gaps, s.len, a, b);
    AdvanceSpans(gaps, s.len, base);
    GapSpansFrom(gaps, base);
    ListedLater(GapSpans(gaps, base), prev, a, base);
    RenderSame(v, prev, a, b);
    LexerViews.PieceLength(v, s, a);
  }

  lemma FirstSpan(gaps: seq<Gap>, docs: seq<Span>, base: nat)
    requires gaps != [] && Listed(GapSpans(gaps, base), docs)
    ensures DocSpan(gaps[0], base) in docs
  {
    assert GapSpans(gaps, base)[0] in docs;
  }

  lemma RenderSame(v: View, prev: char, a: string, b: string)
    requires a != [] && b != [] && Blanking(v) && Step(prev, b) == Step(prev, a)
    requires b[..Step(prev, a).len] == a[..Step(prev, a).len]
    ensures var s := Step(prev, a);
            && Render(v, prev, a) == Piece(v, s, a) + Render(v, a[s.len - 1], a[s.len..])
            && Render(v, prev, b) == Piece(v, s, a) + Render(v, a[s.len - 1], b[s.len..])
  {
    hide Step, Render, Piece;
    var s := Step(prev, a);
    RenderStep(v, prev, a);
    RenderStep(v, prev, b);
    PieceWhole(v, s, a);
    PieceWhole(v, s, b);
    assert a[s.len - 1] == a[..s.len][s.len - 1] == b[..s.len][s.len - 1] == b[s.len - 1];
  }

  lemma GapAtFront(v: View, prev: char, gaps: seq<Gap>, a: string, b: string, base: nat)
    requires Blanking(v) && gaps != [] && gaps[0].d == 0
    requires Fits(gaps, a, b) && DocLines(gaps, a, b)
    requires Listed(GapSpans(gaps, base), DocSpans(prev, a, base))
    ensures var g := gaps[0];
            && FitsHead(g, a, b) && |g.was| >= 4
            && DocLines(gaps[1..], AfterWas(g, a), AfterNow(g, b))
            && Render(v, prev, a) == BlankLine(g.was) + Render(v, '\n', AfterWas(g, a))
            && Render(v, prev, b) == BlankLine(g.now) + Render(v, '\n', AfterNow(g, b))
            && Listed(GapSpans(gaps[1..], base + |g.was|), DocSpans('\n', AfterWas(g, a), base + |g.was|))
  {
    hide Render, DocSpans, Indent, DocText, BlankLine, Fits, GapSpans;
    var g := gaps[0];
    FitsUnfold(gaps, a, b);
    LineShape(g.was);
    assert a[0..] == a && b[0..] == b;
    ReadLine(v, prev, a, g.was);
    ReadLine(v, prev, b, g.now);
    LaterSpans(gaps, DocSpans(prev, a, base), base);
    ReadLineDocs(prev, a, g.was, GapSpans(gaps[1..], base + |g.was|), base);
  }

  lemma LaterSpans(gaps: seq<Gap>, docs: seq<Span>, base: nat)
    requires gaps != [] && gaps[0].d == 0 && Listed(GapSpans(gaps, base), docs)
    ensures var later := GapSpans(gaps[1..], base + |gaps[0].was|);
            Listed(later, docs) && forall i :: 0 <= i < |later| ==> later[i].from >= base + |gaps[0].was|
  {
    hide Indent;
    var later := GapSpans(gaps[1..], base + |gaps[0].was|);
    GapSpansFrom(gaps[1..], base + |gaps[0].was|);
    assert GapSpans(gaps, base)[1..] == later;
    forall i | 0 <= i < |later| ensures later[i] in docs {
      assert later[i] == GapSpans(gaps, base)[i + 1];
    }
  }
}
