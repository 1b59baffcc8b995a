/** What `documentation_edits_match` accepts, on the lines and fields alone: where lines end, what a
    listed line looks like, and that nothing else changes. */
module EditFields {
  import opened RustLexer
  import opened DocGaps
  import opened DocEdits

  /* ---- Lines ---- */

  /** A line ends at the end of the text and after each boundary character, though not between a
      carriage return and the newline after it. */
  predicate LineEnds(a: string, p: nat) {
    && 0 < p <= |a|
    && (|| p == |a|
        || (&& (|| a[p - 1] == '\n' || a[p - 1] == '\r' || a[p - 1] == '\U{000B}' || a[p - 1] == '\U{000C}'
                || a[p - 1] == '\U{001C}' || a[p - 1] == '\U{001D}' || a[p - 1] == '\U{001E}'
                || a[p - 1] == '\U{0085}' || a[p - 1] == '\U{2028}' || a[p - 1] == '\U{2029}')
            && !(a[p - 1] == '\r' && a[p] == '\n')))
  }

  /** The lines are the slices between neighbouring cuts, and the cuts are the line ends. */
  ghost predicate CutInto(a: string, cuts: seq<nat>, lines: seq<string>) {
    && |cuts| == |lines| + 1 && cuts[0] == 0 && cuts[|lines|] == |a|
    && (forall k :: 0 <= k < |lines| ==> LineAt(a, cuts, lines, k))
    && (forall p: nat :: p in cuts <==> p == 0 || LineEnds(a, p))
  }

  predicate LineAt(a: string, cuts: seq<nat>, lines: seq<string>, k: nat)
    requires |cuts| == |lines| + 1 && k < |lines|
  {
    cuts[k] < cuts[k + 1] <= |a| && lines[k] == a[cuts[k]..cuts[k + 1]]
  }

  lemma {:induction false} FirstLine(a: string)
    requires a != []
    ensures LineEnds(a, LineLen(a))
    ensures forall p :: 0 < p < LineLen(a) ==> !LineEnds(a, p)
    decreases |a|
  {
    if !IsLineBreak(a[0]) && |a| > 1 {
      FirstLine(a[1..]);
      LaterEnds(a, 1);
      assert LineEnds(a, 1 + LineLen(a[1..]));
      forall p | 0 < p < LineLen(a) ensures !LineEnds(a, p) {
        if p > 1 {
          var q := p - 1;
          assert LineEnds(a, 1 + q) <==> LineEnds(a[1..], q);
        }
      }
    }
  }

  lemma LaterEnds(a: string, n: nat)
    requires n <= |a|
    ensures forall q: nat :: q > 0 ==> (LineEnds(a, n + q) <==> LineEnds(a[n..], q))
  {
  }

  // The cuts of a text whose first line has `n` characters.
  function Moved(cuts: seq<nat>, n: nat): seq<nat> {
    [0] + seq(|cuts|, i requires 0 <= i < |cuts| => n + cuts[i])
  }

  lemma {:induction false} LinesCut(a: string) returns (cuts: seq<nat>)
    ensures CutInto(a, cuts, SplitLines(a))
    decreases |a|
  {
    if a == [] {
      cuts := [0];
    } else {
      var n := LineLen(a);
      var later := LinesCut(a[n..]);
      cuts := Moved(later, n);
      FrontCut(a, n, later, SplitLines(a[n..]));
    }
  }

  lemma FrontCut(a: string, n: nat, later: seq<nat>, lines: seq<string>)
    requires a != [] && n == LineLen(a) && CutInto(a[n..], later, lines)
    ensures CutInto(a, Moved(later, n), [a[..n]] + lines)
  {
    hide LineLen, LineEnds, LineAt;
    var cuts, all := Moved(later, n), [a[..n]] + lines;
    forall k | 0 <= k < |all| ensures LineAt(a, cuts, all, k) { MovedLine(a, n, later, lines, k); }
    FrontEnds(a, n, later, lines);
  }

  lemma MovedLine(a: string, n: nat, later: seq<nat>, lines: seq<string>, k: nat)
    requires a != [] && n == LineLen(a) && CutInto(a[n..], later, lines) && k <= |lines|
    ensures LineAt(a, Moved(later, n), [a[..n]] + lines, k)
  {
    hide LineLen, LineEnds;
    var cuts, all := Moved(later, n), [a[..n]] + lines;
    if k > 0 {
      var j := k - 1;
      assert LineAt(a[n..], later, lines, j);
      assert cuts[k] == n + later[j] && cuts[k + 1] == n + later[k];
      SliceMoved(a, n, later[j], later[k]);
    }
  }

  lemma SliceMoved(a: string, n: nat, i: nat, j: nat)
    requires n <= |a| && i <= j <= |a| - n
    ensures a[n..][i..j] == a[n + i..n + j]
  {
  }

  lemma FrontEnds(a: string, n: nat, later: seq<nat>, lines: seq<string>)
    requires a != [] && n == LineLen(a) && CutInto(a[n..], later, lines)
    ensures forall p: nat :: p in Moved(later, n) <==> p == 0 || LineEnds(a, p)
  {
    hide LineLen, LineEnds, LineAt, Moved;
    FirstLine(a);
    LaterEnds(a, n);
    assert 0 in later;
    forall p: nat ensures p in Moved(later, n) <==> p == 0 || LineEnds(a, p) {
      MovedHolds(later, n, p);
      if p > n {
        var q: nat := p - n;
        assert LineEnds(a, n + q) <==> LineEnds(a[n..], q);
      }
    }
  }

  lemma MovedHolds(cuts: seq<nat>, n: nat, p: nat)
    ensures p in Moved(cuts, n) <==> p == 0 || exists q :: q in cuts && p == n + q
  {
    var moved := Moved(cuts, n);
    if p in moved && p != 0 {
      var i :| 0 < i < |moved| && moved[i] == p;
      assert cuts[i - 1] in cuts;
    }
    if q :| q in cuts && p == n + q {
      var i :| 0 <= i < |cuts| && cuts[i] == q;
      assert moved[i + 1] == p;
    }
  }

  lemma {:induction false} CutsRise(a: string, cuts: seq<nat>, lines: seq<string>, j: nat)
    requires CutInto(a, cuts, lines) && 1 <= j <= |lines|
    ensures cuts[1] <= cuts[j]
  {
    hide LineEnds;
    if j > 1 {
      CutsRise(a, cuts, lines, j - 1);
      assert LineAt(a, cuts, lines, j - 1);
    }
  }

  lemma {:induction false} CutUnique(a: string, cuts: seq<nat>, lines: seq<string>)
    requires CutInto(a, cuts, lines)
    ensures lines == SplitLines(a)
    decreases |a|
  {
    hide LineLen, LineEnds;
    if a != [] {
      var n := FirstCut(a, cuts, lines);
      LaterCuts(a, n, cuts, lines);
      CutUnique(a[n..], Earlier(cuts, n), lines[1..]);
      assert lines == [a[..n]] + lines[1..];
    } else {
      LinesHaveText(a, cuts, lines);
    }
  }

  lemma LinesHaveText(a: string, cuts: seq<nat>, lines: seq<string>)
    requires CutInto(a, cuts, lines)
    ensures lines != [] ==> a != []
  {
    if lines != [] { assert LineAt(a, cuts, lines, 0); }
  }

  lemma FirstCut(a: string, cuts: seq<nat>, lines: seq<string>) returns (n: nat)
    requires a != [] && CutInto(a, cuts, lines)
    ensures n == LineLen(a) && |lines| > 0 && n == cuts[1]
  {
    hide LineLen, LineEnds;
    n := LineLen(a);
    FirstLine(a);
    assert n in cuts;
    var j :| 0 <= j < |cuts| && cuts[j] == n;
    CutsRise(a, cuts, lines, j);
    assert LineAt(a, cuts, lines, 0);
    assert cuts[1] in cuts;
  }

  function Earlier(cuts: seq<nat>, n: nat): (r: seq<nat>)
    requires |cuts| > 1
  {
    seq(|cuts| - 1, i requires 0 <= i < |cuts| - 1 => if cuts[i + 1] >= n then cuts[i + 1] - n else 0)
  }

  lemma LaterCuts(a: string, n: nat, cuts: seq<nat>, lines: seq<string>)
    requires a != [] && CutInto(a, cuts, lines) && |lines| > 0 && n == LineLen(a) == cuts[1]
    ensures lines[0] == a[..n] && CutInto(a[n..], Earlier(cuts, n), lines[1..])
  {
    hide LineLen, LineEnds;
    assert LineAt(a, cuts, lines, 0);
    forall j | 1 <= j <= |lines| ensures cuts[j] >= n { CutsRise(a, cuts, lines, j); }
    var later := Earlier(cuts, n);
    forall k | 0 <= k < |lines| - 1 ensures LineAt(a[n..], later, lines[1..], k) {
      var j := k + 1;
      assert LineAt(a, cuts, lines, j);
      SliceMoved(a, n, later[k], later[j]);
    }
    LaterLineEnds(a, n, cuts, lines);
  }

  lemma LaterLineEnds(a: string, n: nat, cuts: seq<nat>, lines: seq<string>)
    requires a != [] && CutInto(a, cuts, lines) && |lines| > 0 && n == LineLen(a) == cuts[1]
    requires forall j :: 1 <= j <= |lines| ==> cuts[j] >= n
    ensures forall p: nat :: p in Earlier(cuts, n) <==> p == 0 || LineEnds(a[n..], p)
  {
    hide LineLen, LineEnds, LineAt;
    var later := Earlier(cuts, n);
    LaterEnds(a, n);
    forall p: nat ensures p in later <==> p == 0 || LineEnds(a[n..], p) {
      if p in later {
        var i :| 0 <= i < |later| && later[i] == p;
        assert cuts[i + 1] in cuts;
        assert p > 0 ==> LineEnds(a, n + p);
      }
      if p > 0 && LineEnds(a, n + p) {
        assert n + p in cuts;
        var i :| 0 <= i < |cuts| && cuts[i] == n + p;
        assert i > 0 && later[i - 1] == p;
      }
      assert later[0] == 0;
    }
  }

  /** `splitlines(keepends=True)`: the lines of a text are the slices between its line ends. */
  lemma LinesMean(a: string, lines: seq<string>)
    ensures lines == SplitLines(a) <==> exists cuts :: CutInto(a, cuts, lines)
  {
    hide CutInto;
    var found := LinesCut(a);
    if cuts :| CutInto(a, cuts, lines) { CutUnique(a, cuts, lines); }
  }

  lemma {:induction false} CutOffset(a: string, cuts: seq<nat>, lines: seq<string>, k: nat)
    requires CutInto(a, cuts, lines) && k <= |lines|
    ensures Offset(lines, k) == cuts[k]
  {
    hide LineEnds;
    if k > 0 {
      var j := k - 1;
      CutOffset(a, cuts, lines, j);
      assert LineAt(a, cuts, lines, j);
    }
  }

  /* ---- Fields ---- */

  /** One line with its newline: blanks, three slashes but not four, and anything without a carriage
      return, whose comment is a documentation comment of the text. */
  ghost predicate Documents(text: string, at: nat, docs: seq<Span>) {
    && (exists indent :: DocumentsFrom(text, at, docs, indent))
    && text[|text| - 1] == '\n'
    && (forall i :: 0 <= i < |text| - 1 ==> text[i] != '\n' && text[i] != '\r')
  }

  predicate DocumentsFrom(text: string, at: nat, docs: seq<Span>, indent: nat) {
    && indent + 3 < |text|
    && (forall i :: 0 <= i < indent ==> text[i] == ' ' || text[i] == '\t')
    && text[indent..indent + 3] == "///" && text[indent + 3] != '/'
    && Span(at + indent, at + |text| - 1) in docs
  }

  /** The row names a line of both texts by its number from one, what it read and what it reads. */
  ghost predicate Listed(r: Replacement, cuts: seq<nat>, lines: seq<string>, cuts': seq<nat>, lines': seq<string>,
                         docs: seq<Span>, docs': seq<Span>)
    requires |lines| == |lines'| && |cuts| == |cuts'| == |lines| + 1
  {
    && r.Replacement? && 1 <= r.line <= |lines|
    && lines[r.line - 1] == r.before && lines'[r.line - 1] == r.after && r.before != r.after
    && Documents(r.before, cuts[r.line - 1], docs) && Documents(r.after, cuts'[r.line - 1], docs')
  }

  lemma DocumentsMean(text: string, at: nat, docs: seq<Span>)
    ensures Documents(text, at, docs) <==> WholeLine(text) && DocAt(text, at, docs)
  {
    assert forall i :: 0 <= i < |text| - 1 ==> text[i] == text[..|text| - 1][i];
    IndentMeans(text);
    hide Indent;
    var n := Indent(text);
    if WholeLine(text) && DocAt(text, at, docs) {
      var marked := text[n..];
      assert marked[0] == '/' && marked[1] == '/' && marked[2] == '/';
      assert text[n..n + 3] == "///" && text[|text| - 1] == '\n';
      assert n + 3 < |text| && text[n + 3] == marked[3];
      assert DocumentsFrom(text, at, docs, n);
    }
    if Documents(text, at, docs) {
      var indent: nat :| DocumentsFrom(text, at, docs, indent);
      assert text[indent] == text[indent..indent + 3][0] == '/';
      assert n == indent;
      assert text[n..][..3] == "///" && text[n..][3] != '/';
    }
  }

  lemma {:induction false} IndentMeans(text: string)
    ensures Indent(text) <= |text|
    ensures forall i :: 0 <= i < Indent(text) ==> text[i] == ' ' || text[i] == '\t'
    ensures Indent(text) < |text| ==> text[Indent(text)] != ' ' && text[Indent(text)] != '\t'
  {
    if text != [] { IndentMeans(text[1..]); }
  }

  /* ---- Edited lines are the lines of the edited text ---- */

  // Lines that splitting their join gives back.
  ghost predicate Proper(lines: seq<string>) {
    && (forall k :: 0 <= k < |lines| ==> lines[k] != [] && LineLen(lines[k]) == |lines[k]|)
    && (forall k, n :: 0 <= k < n == k + 1 < |lines| ==> Between(lines[k], lines[n]))
  }

  predicate Between(line: string, next: string)
    requires line != [] && next != []
  {
    IsLineBreak(line[|line| - 1]) && !(line[|line| - 1] == '\r' && next[0] == '\n')
  }

  lemma {:induction false} LineAlone(line: string, a: string)
    requires line != [] && LineLen(line) == |line|
    requires a != [] ==> IsLineBreak(line[|line| - 1]) && !(line[|line| - 1] == '\r' && a[0] == '\n')
    ensures LineLen(line + a) == |line|
  {
    var all := line + a;
    if a == [] {
      assert all == line;
    } else if !IsLineBreak(line[0]) {
      assert all[1..] == line[1..] + a;
      LineAlone(line[1..], a);
    } else if |line| > 1 {
      assert "\r\n" <= line;
      assert all[0] == '\r' && all[1] == '\n';
    } else {
      assert all[1] == a[0];
    }
  }

  lemma {:induction false} LineAgain(a: string)
    requires a != []
    ensures LineLen(a[..LineLen(a)]) == LineLen(a)
    ensures LineLen(a) < |a| ==> !(a[LineLen(a) - 1] == '\r' && a[LineLen(a)] == '\n')
    decreases |a|
  {
    var n := LineLen(a);
    if IsLineBreak(a[0]) {
      assert a[..n][0] == a[0];
      if n == 2 { assert a[..2] == "\r\n"; }
    } else if |a| > 1 {
      LineAgain(a[1..]);
      assert a[..n][1..] == a[1..][..n - 1];
    }
  }

  lemma {:induction false} SplitProper(a: string)
    ensures Proper(SplitLines(a))
    decreases |a|
  {
    if a != [] {
      var n := LineLen(a);
      SplitProper(a[n..]);
      LineAgain(a);
      hide LineLen, IsLineBreak;
      var lines := SplitLines(a[n..]);
      if a[n..] != [] {
        assert lines[0] == a[n..][..LineLen(a[n..])];
        assert Between(a[..n], lines[0]);
      }
      FrontProper(a[..n], lines);
    }
  }

  lemma FrontProper(line: string, lines: seq<string>)
    requires line != [] && LineLen(line) == |line| && Proper(lines)
    requires lines != [] ==> Between(line, lines[0])
    ensures Proper([line] + lines)
  {
    hide LineLen, Between;
    var all := [line] + lines;
    forall k, n | 0 <= k < n == k + 1 < |all| ensures Between(all[k], all[n]) {
      if k > 0 {
        var j := k - 1;
        assert Between(lines[j], lines[k]);
      }
    }
  }

  lemma {:induction false} JoinSplit(lines: seq<string>)
    requires Proper(lines)
    ensures SplitLines(Join(lines)) == lines
  {
    if lines != [] {
      hide LineLen, Between, Join;
      var rest := lines[1..];
      forall k, n | 0 <= k < n == k + 1 < |rest| ensures Between(rest[k], rest[n]) {
        var j := k + 1;
        assert Between(lines[j], lines[j + 1]);
      }
      JoinSplit(rest);
      assert lines == [lines[0]] + rest;
      JoinFront(lines[0], rest);
      FirstAlone(lines[0], rest);
    } else {
      NoPieces();
    }
  }

  lemma FirstAlone(line: string, rest: seq<string>)
    requires Proper([line] + rest) && SplitLines(Join(rest)) == rest
    ensures SplitLines(line + Join(rest)) == [line] + rest
  {
    var lines := [line] + rest;
    assert lines[0] == line;
    var a := Join(rest);
    if rest == [] {
      NoPieces();
    } else {
      hide Join;
      var k, n := 0, 1;
      assert Between(lines[k], lines[n]);
      SplitJoin(a);
      assert a != [] && rest[0] == a[..LineLen(a)];
    }
    LineAlone(line, a);
    var all := line + a;
    assert all[..|line|] == line && all[|line|..] == a;
  }

  /* ---- The check ---- */

  ghost predicate Named(replacements: seq<Replacement>, n: int) {
    exists i :: 0 <= i < |replacements| && replacements[i].Replacement? && replacements[i].line == n
  }

  /** Nothing but the rows decides: the texts differ and have as many lines, no two rows name one
      line, every row tells a documentation line before and after, and every other line stays. */
  lemma EditsMean(was: string, now: string, replacements: seq<Replacement>,
                  cuts: seq<nat>, lines: seq<string>, cuts': seq<nat>, lines': seq<string>)
    requires CutInto(was, cuts, lines) && CutInto(now, cuts', lines')
    ensures EditsMatch(was, now, replacements) <==>
            && replacements != [] && was != now && |lines| == |lines'|
            && (forall i, j :: 0 <= i < j < |replacements| && replacements[i].Replacement? && replacements[j].Replacement? ==>
                 replacements[i].line != replacements[j].line)
            && (forall i :: 0 <= i < |replacements| ==>
                 Listed(replacements[i], cuts, lines, cuts', lines', Lexed(was).lineDocs, Lexed(now).lineDocs))
            && (forall k :: 0 <= k < |lines| && !Named(replacements, k + 1) ==> lines[k] == lines'[k])
  {
    hide SplitLines, Lexed, Join, Listed, ReplacementHolds, Expected, Named, CutInto;
    CutUnique(was, cuts, lines);
    CutUnique(now, cuts', lines');
    SplitJoin(now);
    if |lines| == |lines'| {
      CutLengths(was, cuts, lines);
      CutLengths(now, cuts', lines');
      forall i | 0 <= i < |replacements|
        ensures Listed(replacements[i], cuts, lines, cuts', lines', Lexed(was).lineDocs, Lexed(now).lineDocs)
                <==> ReplacementHolds(replacements[i], lines, lines', Lexed(was).lineDocs, Lexed(now).lineDocs)
      {
        ListedHolds(was, now, replacements[i], cuts, lines, cuts', lines', Lexed(was).lineDocs, Lexed(now).lineDocs);
      }
      if && DistinctLines(replacements)
         && forall i :: 0 <= i < |replacements| ==>
              ReplacementHolds(replacements[i], lines, lines', Lexed(was).lineDocs, Lexed(now).lineDocs)
      {
        OthersStay(was, now, replacements, lines, lines', Lexed(was).lineDocs, Lexed(now).lineDocs);
      }
    }
  }

  lemma CutLengths(a: string, cuts: seq<nat>, lines: seq<string>)
    requires CutInto(a, cuts, lines)
    ensures |cuts| == |lines| + 1
  {
  }

  lemma ListedHolds(was: string, now: string, r: Replacement, cuts: seq<nat>, lines: seq<string>,
                    cuts': seq<nat>, lines': seq<string>, docs: seq<Span>, docs': seq<Span>)
    requires CutInto(was, cuts, lines) && CutInto(now, cuts', lines')
    requires |lines| == |lines'| && |cuts| == |cuts'| == |lines| + 1
    ensures Listed(r, cuts, lines, cuts', lines', docs, docs') <==> ReplacementHolds(r, lines, lines', docs, docs')
  {
    hide CutInto, Documents, WholeLine, DocAt, Offset;
    if r.Replacement? && 1 <= r.line <= |lines| {
      CutOffset(was, cuts, lines, r.line - 1);
      CutOffset(now, cuts', lines', r.line - 1);
      DocumentsMean(r.before, cuts[r.line - 1], docs);
      DocumentsMean(r.after, cuts'[r.line - 1], docs');
    }
  }

  lemma OthersStay(was: string, now: string, replacements: seq<Replacement>, lines: seq<string>, lines': seq<string>,
                   docs: seq<Span>, docs': seq<Span>)
    requires lines == SplitLines(was) && lines' == SplitLines(now) && |lines| == |lines'| && DistinctLines(replacements)
    requires forall i :: 0 <= i < |replacements| ==> ReplacementHolds(replacements[i], lines, lines', docs, docs')
    ensures forall i :: 0 <= i < |replacements| ==> replacements[i].Replacement? && 1 <= replacements[i].line <= |lines|
    ensures Join(Expected(lines, replacements)) == now <==>
            forall k :: 0 <= k < |lines| && !Named(replacements, k + 1) ==> lines[k] == lines'[k]
  {
    hide SplitLines, WholeLine, DocAt, Join, Expected, Proper, DistinctLines;
    SplitJoin(now);
    ExpectedLines(lines, replacements);
    var expected := Expected(lines, replacements);
    ExpectedProper(was, now, replacements, lines, lines', expected, docs, docs');
    JoinSplit(expected);
    assert forall k :: 0 <= k < |lines| ==> (Replaced(replacements, k) <==> Named(replacements, k + 1));
    if forall k :: 0 <= k < |lines| && !Named(replacements, k + 1) ==> lines[k] == lines'[k] {
      assert expected == lines';
    }
  }

  lemma ExpectedProper(was: string, now: string, replacements: seq<Replacement>, lines: seq<string>, lines': seq<string>,
                       expected: seq<string>, docs: seq<Span>, docs': seq<Span>)
    requires lines == SplitLines(was) && lines' == SplitLines(now) && |lines| == |lines'| == |expected|
    requires forall i :: 0 <= i < |replacements| ==> ReplacementHolds(replacements[i], lines, lines', docs, docs')
    requires forall i :: 0 <= i < |replacements| ==>
      && replacements[i].Replacement? && 1 <= replacements[i].line <= |lines|
      && expected[replacements[i].line - 1] == replacements[i].after
    requires forall k :: 0 <= k < |lines| && !Replaced(replacements, k) ==> expected[k] == lines[k]
    ensures Proper(expected)
  {
    hide SplitLines, WholeLine, DocAt, Replaced, LineLen, Between;
    SplitProper(was);
    SplitProper(now);
    forall k | 0 <= k < |expected| ensures expected[k] == lines[k] || Edited(expected[k], lines', k) {
      if Replaced(replacements, k) {
        var i := WhereReplaced(replacements, k);
        DocumentsEdited(replacements[i].after, Offset(lines', k), docs', lines', k);
      }
    }
    forall k, n | 0 <= k < n == k + 1 < |expected| ensures Between(expected[k], expected[n]) {
      assert Between(lines[k], lines[n]);
      EditedBetween(expected[k], expected[n], lines, lines', k, n);
    }
  }

  // A replaced line.
  predicate Edited(line: string, lines': seq<string>, k: nat) {
    && k < |lines'| && line == lines'[k] && line != []
    && line[0] != '\n' && line[|line| - 1] == '\n'
  }

  lemma DocumentsEdited(text: string, at: nat, docs: seq<Span>, lines': seq<string>, k: nat)
    requires WholeLine(text) && DocAt(text, at, docs) && k < |lines'| && text == lines'[k]
    ensures Edited(text, lines', k)
  {
    DocumentsMean(text, at, docs);
  }

  lemma EditedBetween(line: string, next: string, lines: seq<string>, lines': seq<string>, k: nat, n: nat)
    requires k < |lines| && n < |lines| && line != [] && next != [] && lines[k] != [] && lines[n] != []
    requires line == lines[k] || Edited(line, lines', k)
    requires next == lines[n] || Edited(next, lines', n)
    requires Between(lines[k], lines[n])
    ensures Between(line, next)
  {
  }
}
