/** Accepted documentation edits that change the tokens: a raw literal follows a quote, a
    number with a point, or a raw identifier's hash. */
module DocEditsExample {
  import opened Prelude
  import opened RustLexer
  import LexerIdempotence
  import opened DocGaps
  import opened RustTokens
  import TokenGaps
  import TokenEdits
  import opened DocEdits

  const RAW := "r\"\\\"\n"
  const TAIL := "'\"'x'"
  const BEFORE := "///\n"
  const AFTER := "/// \n"
  const EDIT := [Replacement(2, BEFORE, AFTER)]

  // What the token before the raw literal starts with.
  predicate IsFront(front: string) { front == "'" || front == "1." || front == "r#" }

  function Lead(front: string): string { front + RAW }

  lemma FrontPlain(front: string, rest: string)
    requires IsFront(front)
    ensures var a := front + (RAW + rest);
            && (forall p :: 0 <= p < |front| ==> Step(PrevAt('\n', a, p), a[p..]).kind == Plain)
            && a[..|front|] == front && a[|front|..] == RAW + rest
  {
    var a := front + (RAW + rest);
    QuoteOrDigit(a);
    if |front| == 2 { QuoteOrDigit(a[1..]); }
  }

  // Characters that open nothing.
  lemma QuoteOrDigit(a: string)
    requires |a| >= 4 && (a[0] in "1.#" || (a[0] == '\'' && a[1] == 'r' && a[2] == '"') || (a[0] == 'r' && a[1] == '#' && a[2] == 'r'))
    ensures forall prev :: Step(prev, a).kind == Plain
  {
    hide RawBody, StrBody, BlockRun, LineRun;
    if a[0] == 'r' { assert a[1..][1..] == a[2..] && Hashes(a[1..]) == 1; }
  }

  lemma LeadRaw(prev: char, rest: string)
    requires prev in "'.#"
    ensures Step(prev, RAW + rest) == Segment(Literal(2, 1), 4)
    ensures (RAW + rest)[4..] == "\n" + rest
  {
    var a := RAW + rest;
    assert a[1..] == "\"\\\"\n" + rest;
    RawTwo(a);
    assert a[2..] == "\\\"\n" + rest;
    RawEnds(a[2..]);
    hide RawOpen, RawBody, StrBody, CharLen;
  }

  lemma RawTwo(a: string)
    requires |a| >= 2 && a[0] == 'r' && a[1] == '"'
    ensures RawOpen(a) == Some(Opener(2, 0))
  {
  }

  lemma RawEnds(a: string)
    requires |a| >= 2 && a[0] == '\\' && a[1] == '"'
    ensures RawBody(a, 0) == Body(2, true)
  {
  }

  lemma LeadBreak(rest: string)
    ensures Step('"', "\n" + rest) == Segment(Plain, 1) && ("\n" + rest)[1..] == rest
  {
    hide Step;
    LexerIdempotence.BlankIsPlain('"', "\n" + rest);
    PlainStep(Kept, '"', "\n" + rest, 0);
  }

  lemma LineSteps(line: string)
    requires line == BEFORE || line == AFTER
    ensures Step('\n', line + TAIL) == Segment(LineComment, |line| - 1)
    ensures (line + TAIL)[|line| - 1..] == "\n" + TAIL
    ensures IsDoc(Step('\n', line + TAIL), line + TAIL)
  {
    hide Step, IsDoc;
    LineChars(line);
    DocStep(line + TAIL, |line| - 1);
  }

  lemma LineChars(line: string)
    requires line == BEFORE || line == AFTER
    ensures (line + TAIL)[|line| - 1..] == "\n" + TAIL
    ensures var a, n := line + TAIL, |line| - 1;
            && 3 <= n < |a| && "///" <= a && !("////" <= a) && a[n] == '\n'
            && forall i :: 0 <= i < n ==> a[i] != '\n'
  {
    var a := line + TAIL;
    assert a[3] != '/';
    assert a[|line| - 1..] == line[|line| - 1..] + TAIL && line[|line| - 1..] == "\n";
  }

  lemma DocStep(a: string, n: nat)
    requires 3 <= n < |a| && "///" <= a && !("////" <= a) && a[n] == '\n' && forall i :: 0 <= i < n ==> a[i] != '\n'
    ensures Step('\n', a) == Segment(LineComment, n) && IsDoc(Step('\n', a), a)
  {
    hide LineRun, BlockRun, RawOpen, StrBody, CharLen;
    DocGaps.LineRunIs(a, n);
    assert "//" <= a;
  }

  lemma TailSteps(prev: char)
    ensures Step(prev, "\n" + TAIL) == Segment(Plain, 1) && ("\n" + TAIL)[1..] == TAIL
    ensures Step('\n', TAIL) == Segment(Chr, 3) && TAIL[3..] == "x'"
    ensures Step('\'', "x'") == Segment(Plain, 1) && "x'"[1..] == "'"
    ensures Step('x', "'") == Segment(Plain, 1) && "'"[1..] == ""
  {
  }

  lemma TailViews(prev: char, base: nat)
    ensures Render(Kept, prev, "\n" + TAIL) == "\n'\"'x'"
    ensures Render(Skeleton, prev, "\n" + TAIL) == "\n   x'"
    ensures DocSpans(prev, "\n" + TAIL, base) == []
  {
    hide Step, Render, DocSpans;
    TailSteps(prev);
    PlainStep(Kept, prev, "\n" + TAIL, base);
    PlainStep(Skeleton, prev, "\n" + TAIL, base);
    RenderStep(Kept, '\n', TAIL);
    RenderStep(Skeleton, '\n', TAIL);
    DocSpansStep('\n', TAIL, base + 1);
    PlainStep(Kept, '\'', "x'", base + 4);
    PlainStep(Skeleton, '\'', "x'", base + 4);
    PlainStep(Kept, 'x', "'", base + 5);
    PlainStep(Skeleton, 'x', "'", base + 5);
    LexerIdempotence.NothingShown(Kept, '\'');
    LexerIdempotence.NothingShown(Skeleton, '\'');
    DocSpansStep('\'', "", base + 6);
  }

  lemma LineViews(line: string, base: nat)
    requires line == BEFORE || line == AFTER
    ensures Render(Kept, '\n', line + TAIL) == Spaces(line) + TAIL
    ensures Render(Skeleton, '\n', line + TAIL) == Spaces(line) + "   x'"
    ensures DocSpans('\n', line + TAIL, base) == [Span(base, base + |line| - 1)]
  {
    hide Step, Render, DocSpans, IsDoc;
    LineSteps(line);
    var n := |line| - 1;
    var a := line + TAIL;
    RenderStep(Kept, '\n', a);
    RenderStep(Skeleton, '\n', a);
    DocSpansStep('\n', a, base);
    TailViews(a[n - 1], base + n);
    assert a[..n] == line[..n];
    SpacesLine(line);
  }

  lemma ExampleViews(front: string, line: string)
    requires IsFront(front) && (line == BEFORE || line == AFTER)
    ensures var text := front + (RAW + (line + TAIL));
            && Lexed(text).kept == front + (RAW + (Spaces(line) + TAIL))
            && Lexed(text).skeleton == front + ("    \n" + (Spaces(line) + "   x'"))
            && Lexed(text).lineDocs == [Span(|front| + 5, |front| + 5 + |line| - 1)]
  {
    hide Step, Render, DocSpans, Spaces;
    var rest, n := line + TAIL, |front|;
    var text := front + (RAW + rest);
    FrontPlain(front, rest);
    PlainRun(Kept, '\n', text, n, 0);
    PlainRun(Skeleton, '\n', text, n, 0);
    RawViews(PrevAt('\n', text, n), line, n);
  }

  lemma RawViews(prev: char, line: string, base: nat)
    requires prev in "'.#" && (line == BEFORE || line == AFTER)
    ensures var a := RAW + (line + TAIL);
            && Render(Kept, prev, a) == RAW + (Spaces(line) + TAIL)
            && Render(Skeleton, prev, a) == "    \n" + (Spaces(line) + "   x'")
            && DocSpans(prev, a, base) == [Span(base + 5, base + 5 + |line| - 1)]
  {
    hide Step, Render, DocSpans, Spaces;
    var rest := line + TAIL;
    var a := RAW + rest;
    LeadRaw(prev, rest);
    LeadBreak(rest);
    LineViews(line, base + 5);
    RenderStep(Kept, prev, a);
    RenderStep(Skeleton, prev, a);
    DocSpansStep(prev, a, base);
    PlainStep(Kept, '"', "\n" + rest, base + 4);
    PlainStep(Skeleton, '"', "\n" + rest, base + 4);
    RawPiece(a, rest);
  }

  lemma RawPiece(a: string, rest: string)
    requires a == RAW + rest
    ensures a[..4] == "r\"\\\"" && Spaces(a[..4]) == "    " && a[3] == '"'
  {
  }

  // The lifetime, the number or the raw identifier takes the raw literal's `r`.
  lemma FirstToken(front: string, w: string)
    requires IsFront(front)
    ensures var k, s, n := front + (RAW + (w + TAIL)), front + ("    \n" + (w + "   x'")), |front|;
            && TokenLen(k, s) == Ok(n + 1) && !IsSpace(k[0]) && k[..n + 1] == front + "r"
            && k[n + 1..] == "\"\\\"\n" + (w + TAIL) && s[n + 1..] == "   \n" + (w + "   x'")
  {
    hide TokenLen, IsSpace;
    var k, s, n := front + (RAW + (w + TAIL)), front + ("    \n" + (w + "   x'")), |front|;
    assert k[..n] == front && k[n] == 'r' && k[n..] == RAW + (w + TAIL);
    assert k[n + 1..] == "\"\\\"\n" + (w + TAIL) && s[n + 1..] == "   \n" + (w + "   x'");
    FrontCode(front, k);
    assert s[0] == front[0] == k[0];
    ReadAsCode(k, s);
  }

  lemma ReadAsCode(k: string, s: string)
    requires |k| == |s| > 0 && s[0] == k[0] && k[0] in "'1r"
    ensures TokenLen(k, s) == Ok(CodeLen(k)) && !IsSpace(k[0])
  {
    hide CodeLen, LiteralLen;
  }

  lemma FrontCode(front: string, k: string)
    requires IsFront(front) && |k| > |front| + 1 && k[..|front|] == front && k[|front|] == 'r' && k[|front| + 1] == '"'
    ensures CodeLen(k) == |front| + 1
  {
    var n := |front|;
    NoRun(k[n + 1..]);
    NoRun(k[n..]);
    assert k[0] == front[0];
    if n == 2 {
      assert k[1] == front[1];
      assert k[2..][1..] == k[3..];
      if front == "1." {
        NumberOne(k);
      } else {
        assert "r#" <= k;
      }
    }
  }

  lemma NoRun(a: string)
    requires a != [] && a[0] in "\"r"
    ensures Run(DigitPart, a) == 0
    ensures a[0] == '"' ==> Run(IdentPart, a) == 0
  {
  }

  lemma NumberOne(k: string)
    requires |k| > 3 && k[0] == '1' && k[1] == '.' && k[2] == 'r' && k[3] == '"'
    ensures NumberLen(k) == 3
  {
    hide Run;
    NoRun(k[2..]);
    NoRun(k[3..]);
    assert k[1..][0] == '.' && k[1..][1..] == k[2..] && k[2..][0] == 'r' && k[2..][1..] == k[3..];
    NoDigits(k[1..]);
  }

  lemma NoDigits(a: string)
    requires a != [] && a[0] == '.'
    ensures Run(DigitPart, a) == 0
  {
  }

  // Its contents end with a backslash, so the string runs over the comment.
  lemma SecondToken(w: string)
    requires forall i :: 0 <= i < |w| ==> w[i] in " \t\n"
    ensures var k, s := "\"\\\"\n" + (w + TAIL), "   \n" + (w + "   x'");
            && |k| == |s| && TokenLen(k, s) == Ok(6 + |w|) && !IsSpace(k[0])
            && k[..6 + |w|] == "\"\\\"\n" + (w + "'\"")
            && k[6 + |w|..] == "'x'" && s[6 + |w|..] == " x'"
  {
    hide StrBody;
    var k, s := "\"\\\"\n" + (w + TAIL), "   \n" + (w + "   x'");
    assert s[0] == ' ' && k[0] == '"';
    assert k == ("\"\\\"\n" + (w + "'\"")) + "'x'";
    assert s == ("   \n" + (w + "  ")) + " x'";
    assert k[1..] == "\\\"" + (("\n" + w) + TAIL);
    SecondBody(w);
    assert RawOpen(k).None? && k[0..] == k && CharLen(k).None?;
  }

  lemma SecondBody(w: string)
    requires forall i :: 0 <= i < |w| ==> w[i] in " \t\n"
    ensures StrBody("\\\"" + (("\n" + w) + TAIL)) == Body(5 + |w|, true)
  {
    var a := "\\\"" + (("\n" + w) + TAIL);
    hide StrBody;
    assert a[2..] == ("\n" + w) + TAIL;
    EscapedBody(a);
    TokenGaps.BlankStrBody("\n" + w, TAIL);
    TailBody();
  }

  lemma EscapedBody(a: string)
    requires |a| > 1 && a[0] == '\\'
    ensures StrBody(a) == StrBody(a[2..]).Plus(2)
  {
  }

  lemma TailBody()
    ensures StrBody(TAIL) == Body(2, true)
  {
    assert TAIL[1..][0] == '"' && StrBody(TAIL[1..]) == Body(1, true);
  }

  lemma ThirdToken()
    ensures TokenLen("'x'", " x'") == Ok(3) && "'x'"[..3] == "'x'" && "'x'"[3..] == "" && " x'"[3..] == ""
  {
  }

  lemma BlanksOf(line: string)
    requires line == BEFORE || line == AFTER
    ensures |Spaces(line)| == |line| && forall i :: 0 <= i < |line| ==> Spaces(line)[i] in " \t\n"
  {
  }

  lemma NoTokens(base: nat)
    ensures Texts("", "") == Ok([]) && Spans("", "", base) == Ok([])
  {
  }

  lemma ExampleTokens(front: string, line: string)
    requires IsFront(front) && (line == BEFORE || line == AFTER)
    ensures Tokens(front + (RAW + (line + TAIL))) == Ok([front + "r", "\"\\\"\n" + (Spaces(line) + "'\""), "'x'"])
  {
    hide Lexed, TokenLen, IsSpace, Spaces, Texts, Spans, IsFront;
    ExampleViews(front, line);
    BlanksOf(line);
    var w := Spaces(line);
    var k, s := front + (RAW + (w + TAIL)), front + ("    \n" + (w + "   x'"));
    LastTokens(w);
    FirstToken(front, w);
    TokenEdits.TokenScan(k, s, 0);
    var second := "\"\\\"\n" + (w + "'\"");
    assert [front + "r"] + [second, "'x'"] == [front + "r", second, "'x'"];
  }

  lemma LastTokens(w: string)
    requires forall i :: 0 <= i < |w| ==> w[i] in " \t\n"
    ensures var k, s := "\"\\\"\n" + (w + TAIL), "   \n" + (w + "   x'");
            |k| == |s| && Texts(k, s) == Ok(["\"\\\"\n" + (w + "'\""), "'x'"])
  {
    hide TokenLen, IsSpace, Texts, Spans;
    var k, s := "\"\\\"\n" + (w + TAIL), "   \n" + (w + "   x'");
    var second := "\"\\\"\n" + (w + "'\"");
    ThirdToken();
    QuoteNotSpace();
    NoTokens(3);
    TokenEdits.TokenScan("'x'", " x'", 0);
    assert ["'x'"] + [] == ["'x'"];
    SecondToken(w);
    TokenEdits.TokenScan(k, s, 0);
    assert [second] + ["'x'"] == [second, "'x'"];
  }

  lemma QuoteNotSpace()
    ensures !IsSpace("'x'"[0])
  {
  }

  lemma ExampleAccepted(front: string)
    requires IsFront(front)
    ensures EditsMatch(front + (RAW + (BEFORE + TAIL)), front + (RAW + (AFTER + TAIL)), EDIT)
  {
    hide Lexed, SplitLines, WholeLine, DocAt, Join, Offset, Expected, IsFront;
    var was, now := front + (RAW + (BEFORE + TAIL)), front + (RAW + (AFTER + TAIL));
    ExampleViews(front, BEFORE);
    ExampleViews(front, AFTER);
    ExampleLines(front, BEFORE);
    ExampleLines(front, AFTER);
    assert EDIT[..0] == [];
    ExampleExpected(front);
    JoinThree(Lead(front), AFTER, TAIL);
    assert Lead(front) + (AFTER + TAIL) == now;
    ExampleOffset(front, BEFORE);
    ExampleOffset(front, AFTER);
    ExampleDoc(|front| + 5, BEFORE);
    ExampleDoc(|front| + 5, AFTER);
    assert was != now by { assert |was| != |now|; }
  }

  lemma ExampleExpected(front: string)
    ensures Expected([Lead(front), BEFORE, TAIL], EDIT) == [Lead(front), AFTER, TAIL]
  {
  }

  lemma ExampleOffset(front: string, line: string)
    ensures Offset([Lead(front), line, TAIL], 1) == |front| + 5
  {
  }

  lemma ExampleDoc(at: nat, line: string)
    requires line == BEFORE || line == AFTER
    ensures WholeLine(line) && DocAt(line, at, [Span(at, at + |line| - 1)])
  {
    assert Indent(line) == 0 && line[0..] == line && line[3] != '/';
    var docs := [Span(at, at + |line| - 1)];
    assert docs[0] == Span(at + 0, at + |line| - 1);
  }

  lemma JoinThree(x: string, y: string, z: string)
    ensures Join([x, y, z]) == x + (y + z)
  {
    JoinFront(x, [y, z]);
    JoinFront(y, [z]);
    JoinFront(z, []);
    assert [x] + [y, z] == [x, y, z] && [y] + [z] == [y, z] && [z] + [] == [z] && z + Join([]) == z;
  }

  lemma ExampleLines(front: string, line: string)
    requires IsFront(front) && (line == BEFORE || line == AFTER)
    ensures SplitLines(front + (RAW + (line + TAIL))) == [Lead(front), line, TAIL]
  {
    hide SplitLines, LineLen, IsLineBreak, IsFront, Lead;
    NoBreaks(front);
    LeadFirst(front, line + TAIL);
    LineIs(Lead(front), line + TAIL);
    LineIs(line, TAIL);
    LastLine(TAIL);
  }

  lemma LeadFirst(front: string, rest: string)
    ensures front + (RAW + rest) == Lead(front) + rest
    ensures Lead(front) != [] && Lead(front)[|Lead(front)| - 1] == '\n'
  {
  }

  lemma NoBreaks(front: string)
    requires IsFront(front)
    ensures forall i :: 0 <= i < |Lead(front)| - 1 ==> !IsLineBreak(Lead(front)[i])
    ensures forall i :: 0 <= i < |BEFORE| - 1 ==> !IsLineBreak(BEFORE[i])
    ensures forall i :: 0 <= i < |AFTER| - 1 ==> !IsLineBreak(AFTER[i])
    ensures forall i :: 0 <= i < |TAIL| ==> !IsLineBreak(TAIL[i])
  {
  }

  lemma {:induction false} LineIs(line: string, rest: string)
    requires line != [] && line[|line| - 1] == '\n'
    requires forall i :: 0 <= i < |line| - 1 ==> !IsLineBreak(line[i])
    ensures LineLen(line + rest) == |line|
    ensures (line + rest)[..|line|] == line && (line + rest)[|line|..] == rest
    ensures SplitLines(line + rest) == [line] + SplitLines(rest)
  {
    if |line| > 1 {
      LineIs(line[1..], rest);
      assert (line + rest)[1..] == line[1..] + rest;
    }
  }

  lemma {:induction false} LastLine(line: string)
    requires line != [] && forall i :: 0 <= i < |line| ==> !IsLineBreak(line[i])
    ensures LineLen(line) == |line| && SplitLines(line) == [line]
  {
    if |line| > 1 { LastLine(line[1..]); }
    assert line[..|line|] == line && SplitLines(line[|line|..]) == [];
  }

  /** For each of the three, the check accepts an edit of one comment line, and `tokens` returns
      on both texts, with different tokens: the second holds the blanks of the comment. */
  lemma EditChangesTokens(front: string)
    requires IsFront(front)
    ensures var was, now := front + (RAW + (BEFORE + TAIL)), front + (RAW + (AFTER + TAIL));
            && EditsMatch(was, now, EDIT)
            && Tokens(was).Ok? && Tokens(now).Ok? && Tokens(was) != Tokens(now)
  {
    hide EditsMatch, Tokens, IsFront;
    ExampleAccepted(front);
    ExampleTokens(front, BEFORE);
    ExampleTokens(front, AFTER);
    var was, now := Tokens(front + (RAW + (BEFORE + TAIL))).value, Tokens(front + (RAW + (AFTER + TAIL))).value;
    assert |was[1]| == |BEFORE| + 6 && |now[1]| == |AFTER| + 6;
  }
}
