/** `documentation_edits_match` of `scripts/calibration_facets.py`: whole `///` line
    replacements, and what they do to the tokens of the program. */
module DocEdits {
  import opened Prelude
  import opened RustLexer
  import LexerViews
  import opened DocGaps
  import opened LexerRegions
  import opened RustTokens
  import opened TokenGaps
  import opened TokenEdits
  import opened AlignedTokens

  /* ---- str.splitlines(keepends=True) ---- */

  // The first line with its boundary; a carriage return takes the newline after it.
  function LineLen(a: string): (n: nat)
    ensures n <= |a| && (a != [] ==> n > 0)
    ensures n < |a| ==> IsLineBreak(a[n - 1])
  {
    if a == [] then 0
    else if IsLineBreak(a[0]) then if "\r\n" <= a then 2 else 1
    else 1 + LineLen(a[1..])
  }

  function SplitLines(a: string): seq<string>
    decreases |a|
  {
    if a == [] then [] else [a[..LineLen(a)]] + SplitLines(a[LineLen(a)..])
  }

  // The offset of line `k`.
  function Offset(lines: seq<string>, k: nat): nat
    requires k <= |lines|
  {
    if k == 0 then 0 else Offset(lines, k - 1) + |lines[k - 1]|
  }

  /* ---- The check ---- */

  // A table with the keys `line`, `before` and `after` of their types, or any other row.
  datatype Replacement = Replacement(line: int, before: string, after: string) | Malformed

  // One line with its newline at the end and no carriage return.
  predicate WholeLine(text: string) {
    && text != [] && text[|text| - 1] == '\n' && '\n' !in text[..|text| - 1] && '\r' !in text
  }

  // `///` but not `////` after the indent, and a documentation comment of the text.
  predicate DocAt(line: string, offset: nat, docs: seq<Span>) {
    var marked := line[Indent(line)..];
    && "///" <= marked && !("////" <= marked)
    && Span(offset + Indent(line), offset + |line| - 1) in docs
  }

  predicate ReplacementHolds(r: Replacement, was: seq<string>, now: seq<string>,
                             wasDocs: seq<Span>, nowDocs: seq<Span>)
    requires |was| == |now|
  {
    && r.Replacement? && 1 <= r.line <= |was|
    && r.before != r.after && WholeLine(r.before) && WholeLine(r.after)
    && was[r.line - 1] == r.before && now[r.line - 1] == r.after
    && DocAt(r.before, Offset(was, r.line - 1), wasDocs)
    && DocAt(r.after, Offset(now, r.line - 1), nowDocs)
  }

  // The old lines with every replacement made.
  function Expected(lines: seq<string>, replacements: seq<Replacement>): (expected: seq<string>)
    requires forall i :: 0 <= i < |replacements| ==>
      replacements[i].Replacement? && 1 <= replacements[i].line <= |lines|
    ensures |expected| == |lines|
  {
    if replacements == [] then lines
    else
      var r := replacements[|replacements| - 1];
      Expected(lines, replacements[..|replacements| - 1])[r.line - 1 := r.after]
  }

  predicate DistinctLines(replacements: seq<Replacement>) {
    forall i, j :: 0 <= i < j < |replacements| && replacements[i].Replacement? && replacements[j].Replacement? ==>
      replacements[i].line != replacements[j].line
  }

  predicate EditsMatch(was: string, now: string, replacements: seq<Replacement>) {
    var wasLines, nowLines := SplitLines(was), SplitLines(now);
    && replacements != [] && was != now && |wasLines| == |nowLines|
    && DistinctLines(replacements)
    && (forall i :: 0 <= i < |replacements| ==>
         ReplacementHolds(replacements[i], wasLines, nowLines, Lexed(was).lineDocs, Lexed(now).lineDocs))
    && Join(Expected(wasLines, replacements)) == now
  }

  method DocumentationEditsMatch(was: string, now: string, replacements: seq<Replacement>) returns (ok: bool)
    ensures ok == EditsMatch(was, now, replacements)
  {
    hide Lexed, SplitLines, WholeLine, DocAt, Join;
    if replacements == [] || was == now {
      return false;
    }
    var wasLines, nowLines := SplitLines(was), SplitLines(now);
    if |wasLines| != |nowLines| {
      return false;
    }
    var wasSource := Lex(was);
    var nowSource := Lex(now);
    var wasOffsets := Offsets(wasLines);
    var nowOffsets := Offsets(nowLines);
    var expected := wasLines;
    var seen: set<int> := {};
    var i := 0;
    while i < |replacements|
      invariant 0 <= i <= |replacements|
      invariant forall j :: 0 <= j < i ==>
        ReplacementHolds(replacements[j], wasLines, nowLines, wasSource.lineDocs, nowSource.lineDocs)
      invariant DistinctLines(replacements[..i])
      invariant seen == set j | 0 <= j < i :: replacements[j].line
      invariant expected == Expected(wasLines, replacements[..i])
    {
      var r := replacements[i];
      if !r.Replacement? || r.line < 1 || r.line > |wasLines| || r.line in seen {
        return false;
      }
      seen := seen + {r.line};
      if r.before == r.after || !WholeLine(r.before) || !WholeLine(r.after) {
        return false;
      }
      var index := r.line - 1;
      if wasLines[index] != r.before || nowLines[index] != r.after {
        return false;
      }
      if !DocAt(r.before, wasOffsets[index], wasSource.lineDocs) || !DocAt(r.after, nowOffsets[index], nowSource.lineDocs) {
        return false;
      }
      expected := expected[index := r.after];
      assert replacements[..i + 1][..i] == replacements[..i];
      i := i + 1;
    }
    assert replacements[..i] == replacements;
    ok := Join(expected) == now;
  }

  // The offsets lists: one more than there are lines.
  method Offsets(lines: seq<string>) returns (offsets: seq<nat>)
    ensures |offsets| == |lines| + 1
    ensures forall k :: 0 <= k <= |lines| ==> offsets[k] == Offset(lines, k)
  {
    offsets := [0];
    for i := 0 to |lines|
      invariant |offsets| == i + 1
      invariant forall k :: 0 <= k <= i ==> offsets[k] == Offset(lines, k)
    {
      offsets := offsets + [offsets[i] + |lines[i]|];
    }
  }

  /* ---- The lines of a text ---- */

  lemma {:induction false} JoinFront(line: string, lines: seq<string>)
    ensures Join([line] + lines) == line + Join(lines)
  {
    var all := [line] + lines;
    if lines == [] {
      assert all[..0] == [] && all[0] == line;
      assert [] + line == line && line + [] == line;
    } else {
      assert all[..|all| - 1] == [line] + lines[..|lines| - 1];
      JoinFront(line, lines[..|lines| - 1]);
      Shift(line, Join(lines[..|lines| - 1]), lines[|lines| - 1]);
    }
  }

  lemma NoPieces()
    ensures Join([]) == []
  {
  }

  lemma Shift(x: string, y: string, z: string)
    ensures (x + y) + z == x + (y + z)
  {
  }

  /** Splitting loses nothing. */
  lemma {:induction false} SplitJoin(a: string)
    ensures Join(SplitLines(a)) == a
    decreases |a|
  {
    hide LineLen, Join;
    if a == [] {
      NoPieces();
    } else {
      var n := LineLen(a);
      SplitJoin(a[n..]);
      JoinFront(a[..n], SplitLines(a[n..]));
      assert a == a[..n] + a[n..];
    }
  }

  // Only the last line may lack a boundary at its end.
  lemma {:induction false} SplitBroken(a: string)
    ensures Broken(SplitLines(a))
    decreases |a|
  {
    hide LineLen, IsLineBreak;
    if a != [] { SplitBroken(a[LineLen(a)..]); }
  }

  ghost predicate Broken(lines: seq<string>) {
    && (forall k :: 0 <= k < |lines| ==> lines[k] != [])
    && (forall k :: 0 <= k < |lines| - 1 ==> IsLineBreak(lines[k][|lines[k]| - 1]))
  }

  ghost predicate Replaced(replacements: seq<Replacement>, k: nat) {
    exists i :: 0 <= i < |replacements| && replacements[i].Replacement? && replacements[i].line == k + 1
  }

  // The lines differ exactly where a replacement was made, and there as it says.
  lemma {:induction false} ExpectedLines(lines: seq<string>, replacements: seq<Replacement>)
    requires DistinctLines(replacements)
    requires forall i :: 0 <= i < |replacements| ==>
      replacements[i].Replacement? && 1 <= replacements[i].line <= |lines|
    ensures forall i :: 0 <= i < |replacements| ==>
      Expected(lines, replacements)[replacements[i].line - 1] == replacements[i].after
    ensures forall k :: 0 <= k < |lines| && !Replaced(replacements, k) ==>
      Expected(lines, replacements)[k] == lines[k]
  {
    if replacements != [] {
      var n := |replacements| - 1;
      var fewer, r := replacements[..n], replacements[n];
      ExpectedLines(lines, fewer);
      var before, expected := Expected(lines, fewer), Expected(lines, replacements);
      assert expected == before[r.line - 1 := r.after];
      forall i | 0 <= i < |replacements| ensures expected[replacements[i].line - 1] == replacements[i].after {
        if i < n { assert fewer[i] == replacements[i] && before[fewer[i].line - 1] == fewer[i].after; }
      }
      forall k | 0 <= k < |lines| && !Replaced(replacements, k) ensures expected[k] == lines[k] {
        FewerReplaced(replacements, k);
      }
    }
  }

  lemma FewerReplaced(replacements: seq<Replacement>, k: nat)
    requires replacements != [] && !Replaced(replacements, k)
    ensures !Replaced(replacements[..|replacements| - 1], k)
    ensures replacements[|replacements| - 1].Replacement? ==> replacements[|replacements| - 1].line != k + 1
  {
  }

  /* ---- From lines to gaps ---- */

  // The gaps between the lines `xs` and `ys`, after `d` characters that are shared.
  function LineGaps(xs: seq<string>, ys: seq<string>, d: nat): seq<Gap>
    requires |xs| == |ys|
  {
    if xs == [] then []
    else if xs[0] == ys[0] then LineGaps(xs[1..], ys[1..], d + |xs[0]|)
    else [Gap(d, xs[0], ys[0])] + LineGaps(xs[1..], ys[1..], 0)
  }

  ghost predicate DocDifferences(xs: seq<string>, ys: seq<string>)
    requires |xs| == |ys|
  {
    forall k :: 0 <= k < |xs| && xs[k] != ys[k] ==> DocText(xs[k]) && DocText(ys[k])
  }

  ghost predicate GapsFit(p: string, xs: seq<string>, ys: seq<string>)
    requires |xs| == |ys|
  {
    var gaps, a, b := LineGaps(xs, ys, |p|), p + Join(xs), p + Join(ys);
    Fits(gaps, a, b) && DocLines(gaps, a, b)
  }

  lemma {:induction false} LineGapsFit(p: string, xs: seq<string>, ys: seq<string>)
    requires |xs| == |ys| && DocDifferences(xs, ys) && Broken(xs)
    requires p != [] && xs != [] ==> IsLineBreak(p[|p| - 1])
    ensures GapsFit(p, xs, ys)
    decreases |xs|
  {
    hide GapsFit, DocText, IsLineBreak;
    if xs == [] {
      NoLines(p, xs, ys);
    } else {
      var p' := if xs[0] == ys[0] then p + xs[0] else [];
      LineGapsFit(p', xs[1..], ys[1..]);
      FrontLine(p, xs, ys, p');
    }
  }

  lemma NoLines(p: string, xs: seq<string>, ys: seq<string>)
    requires xs == [] && ys == []
    ensures GapsFit(p, xs, ys)
  {
  }

  lemma FrontLine(p: string, xs: seq<string>, ys: seq<string>, p': string)
    requires |xs| == |ys| > 0 && p' == if xs[0] == ys[0] then p + xs[0] else []
    requires xs[0] != ys[0] ==> DocText(xs[0]) && DocText(ys[0])
    requires p != [] ==> IsLineBreak(p[|p| - 1])
    requires GapsFit(p', xs[1..], ys[1..])
    ensures GapsFit(p, xs, ys)
  {
    hide Fits, DocLines, DocText, IsLineBreak, Join;
    var x, y, xs', ys' := xs[0], ys[0], xs[1..], ys[1..];
    assert xs == [x] + xs' && ys == [y] + ys';
    JoinFront(x, xs'); JoinFront(y, ys');
    if x == y {
      Shift(p, x, Join(xs')); Shift(p, y, Join(ys'));
    } else {
      assert [] + Join(xs') == Join(xs') && [] + Join(ys') == Join(ys');
      FrontGap(Gap(|p|, x, y), LineGaps(xs', ys', 0), p, Join(xs'), Join(ys'));
    }
  }

  lemma FrontGap(g: Gap, gaps: seq<Gap>, p: string, a: string, b: string)
    requires g.d == |p| && DocText(g.was) && DocText(g.now)
    requires p != [] ==> IsLineBreak(p[|p| - 1])
    requires Fits(gaps, a, b) && DocLines(gaps, a, b)
    ensures Fits([g] + gaps, p + (g.was + a), p + (g.now + b))
    ensures DocLines([g] + gaps, p + (g.was + a), p + (g.now + b))
  {
    hide Fits, DocLines, DocText, IsLineBreak;
    var k, k' := p + (g.was + a), p + (g.now + b);
    assert k[g.d..] == g.was + a && k'[g.d..] == g.now + b && k[..g.d] == p == k'[..g.d];
    assert AfterWas(g, k) == a && AfterNow(g, k') == b;
    assert ([g] + gaps)[1..] == gaps;
    FitsFold([g] + gaps, k, k');
    DocLinesFold([g] + gaps, k, k');
  }

  lemma DocLinesFold(gaps: seq<Gap>, a: string, b: string)
    requires gaps != [] && Fits(gaps, a, b) && FitsHead(gaps[0], a, b) && DocHead(gaps[0], a, b)
    requires Fits(gaps[1..], AfterWas(gaps[0], a), AfterNow(gaps[0], b))
    requires DocLines(gaps[1..], AfterWas(gaps[0], a), AfterNow(gaps[0], b))
    ensures DocLines(gaps, a, b)
  {
  }

  // Line `k` of the lines that start at offset `at`.
  function LineSpan(xs: seq<string>, k: nat, at: nat): Span
    requires k < |xs|
  {
    DocSpan(Gap(0, xs[k], []), at + Offset(xs, k))
  }

  lemma {:induction false} OffsetFront(xs: seq<string>, k: nat)
    requires 0 < k <= |xs|
    ensures Offset(xs, k) == |xs[0]| + Offset(xs[1..], k - 1)
  {
    if k > 1 { OffsetFront(xs, k - 1); }
  }

  lemma {:induction false} LineGapSpans(xs: seq<string>, ys: seq<string>, d: nat, base: nat, docs: seq<Span>)
    requires |xs| == |ys|
    requires forall k :: 0 <= k < |xs| && xs[k] != ys[k] ==> LineSpan(xs, k, base + d) in docs
    ensures Listed(GapSpans(LineGaps(xs, ys, d), base), docs)
    decreases |xs|
  {
    hide Indent;
    if xs != [] {
      var xs', ys' := xs[1..], ys[1..];
      var d', base' := if xs[0] == ys[0] then d + |xs[0]| else 0,
                       if xs[0] == ys[0] then base else base + d + |xs[0]|;
      forall k | 0 <= k < |xs'| && xs'[k] != ys'[k] ensures LineSpan(xs', k, base' + d') in docs {
        OffsetFront(xs, k + 1);
        assert LineSpan(xs, k + 1, base + d) in docs;
      }
      LineGapSpans(xs', ys', d', base', docs);
      if xs[0] != ys[0] { assert LineSpan(xs, 0, base + d) in docs; }
    }
  }

  // The marks of the blanked gaps are the offsets of the lines whose blanks change.
  predicate BlankChanges(xs: seq<string>, ys: seq<string>, k: nat)
    requires |xs| == |ys| && k < |xs|
  {
    BlankLine(xs[k]) != BlankLine(ys[k])
  }

  ghost predicate MarkLine(xs: seq<string>, ys: seq<string>, at: nat, mark: nat, k: nat)
    requires |xs| == |ys|
  {
    k < |xs| && BlankChanges(xs, ys, k) && mark == at + Offset(xs, k)
  }

  ghost predicate IsMark(xs: seq<string>, ys: seq<string>, at: nat, mark: nat)
    requires |xs| == |ys|
  {
    exists k :: MarkLine(xs, ys, at, mark, k)
  }

  ghost predicate MarksAreLines(xs: seq<string>, ys: seq<string>, at: nat, marks: seq<nat>)
    requires |xs| == |ys|
  {
    && (forall j :: 0 <= j < |marks| ==> IsMark(xs, ys, at, marks[j]))
    && (forall k :: 0 <= k < |xs| && BlankChanges(xs, ys, k) ==> at + Offset(xs, k) in marks)
  }

  lemma {:induction false} LineMarks(xs: seq<string>, ys: seq<string>, d: nat, base: nat)
    requires |xs| == |ys|
    ensures MarksAreLines(xs, ys, base + d, Marks(BlankGaps(LineGaps(xs, ys, d)), base))
    decreases |xs|
  {
    hide BlankLine, BlankGaps, MarksAreLines;
    var marks := Marks(BlankGaps(LineGaps(xs, ys, d)), base);
    if xs == [] {
      NoBlankGaps([]);
      NoMarks(xs, ys, base + d, marks);
    } else {
      var d', base' := if xs[0] == ys[0] then d + |xs[0]| else 0,
                       if xs[0] == ys[0] then base else base + d + |xs[0]|;
      var later := Marks(BlankGaps(LineGaps(xs[1..], ys[1..], d')), base');
      LineMarks(xs[1..], ys[1..], d', base');
      if xs[0] != ys[0] {
        BlankGapsStep(LineGaps(xs, ys, d));
        BlankLineLength(xs[0]);
      }
      assert marks == (if BlankChanges(xs, ys, 0) then [base + d] else []) + later;
      FrontMarks(xs, ys, marks, later, base + d, base' + d');
    }
  }

  lemma NoMarks(xs: seq<string>, ys: seq<string>, at: nat, marks: seq<nat>)
    requires xs == [] && ys == [] && marks == []
    ensures MarksAreLines(xs, ys, at, marks)
  {
  }

  lemma BlankLineLength(line: string)
    ensures |BlankLine(line)| == |line|
  {
  }

  lemma FrontMarks(xs: seq<string>, ys: seq<string>, marks: seq<nat>, later: seq<nat>, at: nat, at': nat)
    requires |xs| == |ys| > 0 && at' == at + |xs[0]|
    requires marks == (if BlankChanges(xs, ys, 0) then [at] else []) + later
    requires MarksAreLines(xs[1..], ys[1..], at', later)
    ensures MarksAreLines(xs, ys, at, marks)
  {
    hide BlankLine, Offset;
    forall j | 0 <= j < |marks| ensures IsMark(xs, ys, at, marks[j]) {
      MarkFound(xs, ys, marks, later, at, at', j);
    }
    forall k | 0 <= k < |xs| && BlankChanges(xs, ys, k) ensures at + Offset(xs, k) in marks {
      MarkKept(xs, ys, marks, later, at, at', k);
    }
  }

  lemma MarkFound(xs: seq<string>, ys: seq<string>, marks: seq<nat>, later: seq<nat>, at: nat, at': nat, j: nat)
    requires |xs| == |ys| > 0 && at' == at + |xs[0]| && j < |marks|
    requires marks == (if BlankChanges(xs, ys, 0) then [at] else []) + later
    requires MarksAreLines(xs[1..], ys[1..], at', later)
    ensures IsMark(xs, ys, at, marks[j])
  {
    hide BlankLine, MarkLine;
    var first := if BlankChanges(xs, ys, 0) then 1 else 0;
    if j < first {
      FirstMark(xs, ys, at);
    } else {
      assert IsMark(xs[1..], ys[1..], at', later[j - first]);
      var k: nat :| MarkLine(xs[1..], ys[1..], at', later[j - first], k);
      LaterMark(xs, ys, at, at', marks[j], k);
    }
  }

  lemma FirstMark(xs: seq<string>, ys: seq<string>, at: nat)
    requires |xs| == |ys| > 0 && BlankChanges(xs, ys, 0)
    ensures MarkLine(xs, ys, at, at, 0)
  {
    hide BlankLine;
  }

  lemma MarkKept(xs: seq<string>, ys: seq<string>, marks: seq<nat>, later: seq<nat>, at: nat, at': nat, k: nat)
    requires |xs| == |ys| > 0 && at' == at + |xs[0]| && k < |xs| && BlankChanges(xs, ys, k)
    requires marks == (if BlankChanges(xs, ys, 0) then [at] else []) + later
    requires MarksAreLines(xs[1..], ys[1..], at', later)
    ensures at + Offset(xs, k) in marks
  {
    hide BlankLine;
    if k == 0 {
      assert marks[0] == at;
    } else {
      OffsetFront(xs, k);
      assert BlankChanges(xs[1..], ys[1..], k - 1);
      assert at' + Offset(xs[1..], k - 1) in later;
    }
  }

  lemma LaterMark(xs: seq<string>, ys: seq<string>, at: nat, at': nat, mark: nat, k: nat)
    requires |xs| == |ys| > 0 && at' == at + |xs[0]| && MarkLine(xs[1..], ys[1..], at', mark, k)
    ensures MarkLine(xs, ys, at, mark, k + 1)
  {
    hide BlankLine;
    OffsetFront(xs, k + 1);
  }

  /* ---- What an accepted edit does to the program ---- */

  // Whether a token of `was` reaches over an edited line whose blanked form changes.
  ghost predicate EditStraddled(was: string, replacements: seq<Replacement>, spans: seq<Span>) {
    exists i, j :: 0 <= i < |replacements| && 0 <= j < |spans| && Reaches(was, replacements[i], spans[j])
  }

  // The blanked form is the indent, and as many blanks as the comment has characters.
  predicate Reaches(was: string, r: Replacement, span: Span) {
    && r.Replacement? && 1 <= r.line <= |SplitLines(was)|
    && BlankLine(r.before) != BlankLine(r.after)
    && Straddles(span, Offset(SplitLines(was), r.line - 1))
  }

  lemma WholeDocLine(line: string, offset: nat, docs: seq<Span>)
    requires WholeLine(line) && DocAt(line, offset, docs)
    ensures DocText(line) && DocSpan(Gap(0, line, []), offset) in docs
  {
    hide Indent;
    assert forall i :: 0 <= i < |line| - 1 ==> line[i] == line[..|line| - 1][i];
  }

  lemma EditParts(was: string, now: string, replacements: seq<Replacement>)
    requires EditsMatch(was, now, replacements)
    ensures var xs, zs := SplitLines(was), SplitLines(now);
            && |xs| == |zs| && DistinctLines(replacements)
            && (forall i :: 0 <= i < |replacements| ==>
                 ReplacementHolds(replacements[i], xs, zs, Lexed(was).lineDocs, Lexed(now).lineDocs))
            && (forall i :: 0 <= i < |replacements| ==>
                 replacements[i].Replacement? && 1 <= replacements[i].line <= |xs|)
            && Join(Expected(xs, replacements)) == now
  {
    hide SplitLines, Lexed, WholeLine, DocAt, Join;
  }

  lemma HeldLine(r: Replacement, xs: seq<string>, zs: seq<string>, docs: seq<Span>, docs': seq<Span>)
    requires |xs| == |zs| && ReplacementHolds(r, xs, zs, docs, docs')
    ensures xs[r.line - 1] == r.before != r.after
    ensures DocText(r.before) && DocText(r.after) && LineSpan(xs, r.line - 1, 0) in docs
  {
    hide WholeLine, DocAt, DocText, Indent;
    WholeDocLine(r.before, Offset(xs, r.line - 1), docs);
    WholeDocLine(r.after, Offset(zs, r.line - 1), docs');
  }

  // The accepted edit as gaps: the texts, the lines that differ, and their comments.
  lemma EditLines(was: string, now: string, replacements: seq<Replacement>)
    requires EditsMatch(was, now, replacements)
    ensures forall i :: 0 <= i < |replacements| ==>
              replacements[i].Replacement? && 1 <= replacements[i].line <= |SplitLines(was)|
    ensures var xs := SplitLines(was);
            var ys := Expected(xs, replacements);
            && Join(xs) == was && Join(ys) == now && Broken(xs)
            && DocDifferences(xs, ys)
            && (forall k :: 0 <= k < |xs| && xs[k] != ys[k] ==>
                 LineSpan(xs, k, 0) in Lexed(was).lineDocs && Replaced(replacements, k))
            && (forall i :: 0 <= i < |replacements| ==>
                 var r := replacements[i];
                 xs[r.line - 1] == r.before != r.after && ys[r.line - 1] == r.after)
  {
    hide SplitLines, Lexed, DocText, Join, IsLineBreak, EditsMatch, ReplacementHolds, LineSpan, Replaced,
         DocDifferences, Broken, Expected;
    EditParts(was, now, replacements);
    var xs, zs := SplitLines(was), SplitLines(now);
    var ys := Expected(xs, replacements);
    SplitJoin(was);
    SplitBroken(was);
    ExpectedLines(xs, replacements);
    HeldLines(xs, zs, ys, replacements, Lexed(was).lineDocs, Lexed(now).lineDocs);
  }

  lemma HeldLines(xs: seq<string>, zs: seq<string>, ys: seq<string>, replacements: seq<Replacement>,
                  docs: seq<Span>, docs': seq<Span>)
    requires |xs| == |ys| == |zs|
    requires forall i :: 0 <= i < |replacements| ==> ReplacementHolds(replacements[i], xs, zs, docs, docs')
    requires forall i :: 0 <= i < |replacements| ==>
      replacements[i].Replacement? && 1 <= replacements[i].line <= |xs| && ys[replacements[i].line - 1] == replacements[i].after
    requires forall k :: 0 <= k < |xs| && !Replaced(replacements, k) ==> ys[k] == xs[k]
    ensures DocDifferences(xs, ys)
    ensures forall k :: 0 <= k < |xs| && xs[k] != ys[k] ==> LineSpan(xs, k, 0) in docs && Replaced(replacements, k)
    ensures forall i :: 0 <= i < |replacements| ==>
      xs[replacements[i].line - 1] == replacements[i].before != replacements[i].after
  {
    hide DocText, IsLineBreak, ReplacementHolds, LineSpan, Replaced;
    forall i | 0 <= i < |replacements|
      ensures xs[replacements[i].line - 1] == replacements[i].before != replacements[i].after
    {
      HeldLine(replacements[i], xs, zs, docs, docs');
    }
    forall k | 0 <= k < |xs| && xs[k] != ys[k]
      ensures DocText(xs[k]) && DocText(ys[k]) && LineSpan(xs, k, 0) in docs
    {
      var i := WhereReplaced(replacements, k);
      HeldLine(replacements[i], xs, zs, docs, docs');
    }
  }

  lemma WhereReplaced(replacements: seq<Replacement>, k: nat) returns (i: nat)
    requires Replaced(replacements, k)
    ensures i < |replacements| && replacements[i].Replacement? && replacements[i].line == k + 1
  {
    i :| 0 <= i < |replacements| && replacements[i].Replacement? && replacements[i].line == k + 1;
  }

  lemma EditAgrees(was: string, now: string, replacements: seq<Replacement>)
    requires EditsMatch(was, now, replacements)
    ensures forall i :: 0 <= i < |replacements| ==>
              replacements[i].Replacement? && 1 <= replacements[i].line <= |SplitLines(was)|
    ensures var xs := SplitLines(was);
            var marks := Marks(BlankGaps(LineGaps(xs, Expected(xs, replacements), 0)), 0);
            match TokenSpans(was)
            case Err(e) => Tokens(was) == Err(e) && Tokens(now) == Err(e)
            case Ok(spans) =>
              && Tokens(was).Ok? && Tokens(now).Ok?
              && (Tokens(now) == Tokens(was) <==> Clean(spans, marks))
  {
    hide SplitLines, Expected, Render, DocSpans, Fits, DocLines, LineGaps, BlankGaps, Marks, Texts, Spans, Clean,
         EditsMatch, DocDifferences, Broken, Listed, GapSpans;
    EditLines(was, now, replacements);
    var xs := SplitLines(was);
    var ys := Expected(xs, replacements);
    assert forall k :: 0 <= k < |xs| && xs[k] != ys[k] ==> LineSpan(xs, k, 0 + 0) in Lexed(was).lineDocs;
    var gaps := LineGaps(xs, ys, 0);
    LineGapsFit([], xs, ys);
    assert [] + was == was && [] + now == now;
    LineGapSpans(xs, ys, 0, 0, Lexed(was).lineDocs);
    LexGaps(Kept, '\n', gaps, was, now, 0);
    LexGaps(Skeleton, '\n', gaps, was, now, 0);
    BlankLines(gaps, was, now);
    LexerViewsOf(was);
    LexerViewsOf(now);
    ScanGaps(BlankGaps(gaps), Lexed(was).kept, Lexed(was).skeleton, Lexed(now).kept, Lexed(now).skeleton, 0);
  }

  /** An accepted documentation edit keeps the token stream, raising included, exactly when
      `tokens` raises on the old text or no token of it reaches over an edited line whose
      blanked form changes. */
  lemma EditsKeepTokens(was: string, now: string, replacements: seq<Replacement>)
    requires EditsMatch(was, now, replacements)
    ensures Tokens(now) == Tokens(was) <==>
            TokenSpans(was).Err? || !EditStraddled(was, replacements, TokenSpans(was).value)
  {
    hide SplitLines, Lexed, Tokens, TokenSpans, EditsMatch, LineGaps, BlankGaps, Marks, Clean;
    EditAgrees(was, now, replacements);
    if TokenSpans(was).Ok? {
      MarksAreEdits(was, now, replacements, TokenSpans(was).value);
    }
  }

  lemma MarksAreEdits(was: string, now: string, replacements: seq<Replacement>, spans: seq<Span>)
    requires EditsMatch(was, now, replacements)
    ensures forall i :: 0 <= i < |replacements| ==>
              replacements[i].Replacement? && 1 <= replacements[i].line <= |SplitLines(was)|
    ensures var xs := SplitLines(was);
            var marks := Marks(BlankGaps(LineGaps(xs, Expected(xs, replacements), 0)), 0);
            Clean(spans, marks) <==> !EditStraddled(was, replacements, spans)
  {
    hide SplitLines, Lexed, LineGaps, BlankGaps, Marks, EditsMatch, Join, Expected, Replaced, Broken, DocDifferences,
         EditStraddled, Clean, MarksAreLines;
    EditLines(was, now, replacements);
    var xs := SplitLines(was);
    var ys := Expected(xs, replacements);
    var marks := Marks(BlankGaps(LineGaps(xs, ys, 0)), 0);
    LineMarks(xs, ys, 0, 0);
    MarkReached(was, xs, ys, replacements, marks, spans);
    ReachMarked(was, xs, ys, replacements, marks, spans);
  }

  lemma ReachMarked(was: string, xs: seq<string>, ys: seq<string>, replacements: seq<Replacement>,
                    marks: seq<nat>, spans: seq<Span>)
    requires xs == SplitLines(was) && |xs| == |ys| && MarksAreLines(xs, ys, 0, marks)
    requires forall i :: 0 <= i < |replacements| ==>
      var r := replacements[i];
      r.Replacement? && 1 <= r.line <= |xs| && xs[r.line - 1] == r.before && ys[r.line - 1] == r.after
    ensures EditStraddled(was, replacements, spans) ==> !Clean(spans, marks)
  {
  }

  lemma MarkReached(was: string, xs: seq<string>, ys: seq<string>, replacements: seq<Replacement>,
                    marks: seq<nat>, spans: seq<Span>)
    requires xs == SplitLines(was) && |xs| == |ys| && MarksAreLines(xs, ys, 0, marks)
    requires forall i :: 0 <= i < |replacements| ==>
      var r := replacements[i];
      r.Replacement? && 1 <= r.line <= |xs| && xs[r.line - 1] == r.before && ys[r.line - 1] == r.after
    requires forall k :: 0 <= k < |xs| && xs[k] != ys[k] ==> Replaced(replacements, k)
    ensures !Clean(spans, marks) ==> EditStraddled(was, replacements, spans)
  {
    hide SplitLines, BlankLine, Straddles, Replaced;
    if !Clean(spans, marks) {
      var j, m :| 0 <= j < |spans| && 0 <= m < |marks| && Straddles(spans[j], marks[m]);
      assert IsMark(xs, ys, 0, marks[m]);
      var k: nat :| MarkLine(xs, ys, 0, marks[m], k);
      var i := WhereReplaced(replacements, k);
      assert Reaches(was, replacements[i], spans[j]);
    }
  }

  /* ---- A condition on the old text ---- */

  lemma {:induction false} JoinPrefix(lines: seq<string>, k: nat)
    requires k <= |lines|
    ensures |Join(lines[..k])| == Offset(lines, k) && Join(lines[..k]) <= Join(lines)
    decreases |lines|
  {
    if k == |lines| {
      assert lines[..k] == lines;
      if k > 0 {
        JoinPrefix(lines[..k - 1], k - 1);
        OffsetsShared(lines, lines[..k - 1], k - 1);
        assert lines[..k - 1][..k - 1] == lines[..k - 1];
      }
    } else {
      var fewer := lines[..|lines| - 1];
      JoinPrefix(fewer, k);
      OffsetsShared(lines, fewer, k);
      assert fewer[..k] == lines[..k];
    }
  }

  lemma {:induction false} OffsetsShared(xs: seq<string>, ys: seq<string>, k: nat)
    requires k <= |xs| && k <= |ys| && forall i :: 0 <= i < k ==> xs[i] == ys[i]
    ensures Offset(xs, k) == Offset(ys, k)
  {
    if k > 0 { OffsetsShared(xs, ys, k - 1); }
  }

  // Line `k` stands at its offset.
  lemma LineAt(lines: seq<string>, k: nat)
    requires k < |lines|
    ensures Offset(lines, k) + |lines[k]| <= |Join(lines)|
    ensures Join(lines)[Offset(lines, k)..Offset(lines, k) + |lines[k]|] == lines[k]
  {
    hide Join, Offset;
    JoinPrefix(lines, k);
    JoinPrefix(lines, k + 1);
    JoinOneMore(lines, k);
    SliceAfter(Join(lines), Join(lines[..k]), lines[k]);
  }

  lemma JoinOneMore(lines: seq<string>, k: nat)
    requires k < |lines|
    ensures Join(lines[..k + 1]) == Join(lines[..k]) + lines[k]
  {
    assert lines[..k + 1][..k] == lines[..k] && lines[..k + 1][k] == lines[k];
  }

  lemma SliceAfter(whole: string, front: string, line: string)
    requires front + line <= whole
    ensures |front| + |line| <= |whole| && whole[|front|..|front| + |line|] == line
  {
    var n := |front| + |line|;
    assert whole[..n] == front + line;
    assert whole[|front|..n] == whole[..n][|front|..];
  }

  // A token that reached into the line would end in the blanks before its comment.
  lemma NotReached(was: string, xs: seq<string>, k: nat, spans: seq<Span>, j: nat)
    requires TokenSpans(was) == Ok(spans) && InStep(spans, Regions('\n', was, 0), was) && j < |spans|
    requires Join(xs) == was && k < |xs| && DocText(xs[k]) && LineSpan(xs, k, 0) in Lexed(was).lineDocs
    ensures !Straddles(spans[j], Offset(xs, k))
  {
    hide Regions, Lexed, Spans, Join, Offset, TokenSpans, Reads, Indent;
    var at, span := Offset(xs, k), LineSpan(xs, k, 0);
    LineDoc(was, span);
    var regions := Regions('\n', was, 0);
    var m :| 0 <= m < |regions| && regions[m] == Region(span, LineComment);
    assert Respects(spans[j], regions[m], was);
    if Straddles(spans[j], at) {
      LineAt(xs, k);
      TokenEndsSolid(was, spans, j);
      InIndent(was, xs[k], at, spans[j].to - 1);
      assert false;
    }
  }

  lemma InIndent(was: string, line: string, at: nat, p: nat)
    requires at + |line| <= |was| && was[at..at + |line|] == line && at <= p < at + Indent(line)
    ensures was[p] in " \t"
  {
    assert was[p] == was[at..at + |line|][p - at];
  }

  lemma LineDoc(was: string, span: Span)
    requires span in Lexed(was).lineDocs
    ensures Region(span, LineComment) in Regions('\n', was, 0)
  {
    hide Regions, Render, DocSpans;
    DocRegions('\n', was, 0);
    var i :| 0 <= i < |Lexed(was).lineDocs| && Lexed(was).lineDocs[i] == span;
  }

  lemma TokenEndsSolid(was: string, spans: seq<Span>, j: nat)
    requires TokenSpans(was) == Ok(spans) && j < |spans|
    ensures 0 < spans[j].to <= |was| && was[spans[j].to - 1] !in " \t"
  {
    hide Render, DocSpans, Spans;
    LexerViewsOf(was);
    LexerViews.RenderAligned(Kept, Kept, '\n', was);
    var kept, skel := Lexed(was).kept, Lexed(was).skeleton;
    assert kept[0..] == kept && skel[0..] == skel;
    SolidSpans(kept, skel, 0);
  }

  /** When no raw literal of the old text follows a dot, a quote or a hash, every accepted
      documentation edit keeps the token stream. */
  lemma EditsKeepTokensApart(was: string, now: string, replacements: seq<Replacement>)
    requires EditsMatch(was, now, replacements) && RawApart('\n', was)
    ensures Tokens(now) == Tokens(was)
  {
    hide SplitLines, Lexed, Tokens, TokenSpans, EditsMatch, RawApart, InStep, Regions, Straddles, Expected, DocText,
         BlankLine, LineSpan, Join;
    EditsKeepTokens(was, now, replacements);
    if TokenSpans(was).Ok? && EditStraddled(was, replacements, TokenSpans(was).value) {
      var spans, xs := TokenSpans(was).value, SplitLines(was);
      var i, j :| 0 <= i < |replacements| && 0 <= j < |spans| && Reaches(was, replacements[i], spans[j]);
      TokensInStep(was);
      EditLines(was, now, replacements);
      NotReached(was, xs, replacements[i].line - 1, spans, j);
      assert false;
    }
  }
}
