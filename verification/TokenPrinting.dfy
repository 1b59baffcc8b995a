/** Tokens written down one after another, each with a space behind it, are read back as they are. */
module TokenPrinting {
  import opened Prelude
  import opened RustLexer
  import opened RustTokens
  import opened LexerExtents
  import opened CodeTokens
  import opened TokenReading
  import LexerIdempotence
  import TokenEdits

  /* ---- Words ---- */

  // A word that is one code token.
  ghost predicate CodeWord(w: string) {
    && w != "" && !White(w[0]) && w[0] <= '\U{7f}' && w[0] != '"'
    && (w[0] == '\'' ==> |w| >= 2)
    && CodeAt(w, |w|)
  }

  // A character, string or raw literal, closed at its end.
  ghost predicate Quoted(w: string) {
    || IsCharLiteral(w)
    || (w != "" && w[0] == '"' && StringExtent(w, |w|, 1))
  }

  ghost predicate RawWord(w: string, k: nat, h: nat) { RawClosed(w, |w|, k, h) }

  ghost predicate LiteralWord(w: string) {
    || Quoted(w)
    || (w != "" && w[0] == 'b' && Quoted(w[1..]))
    || exists k: nat, h: nat :: RawWord(w, k, h)
  }

  ghost predicate Word(w: string) { CodeWord(w) || LiteralWord(w) }

  function Spaced(words: seq<string>): string {
    if words == [] then "" else words[0] + (" " + Spaced(words[1..]))
  }

  /* ---- The characters of a code word ---- */

  ghost predicate Solid(w: string) {
    && (forall p :: 0 <= p < |w| ==> w[p] != '"' && (p > 0 ==> w[p] != '\''))
    && (forall p :: 0 <= p < |w| && w[p] == '/' ==> p + 1 < |w| ==> w[p + 1] != '/' && w[p + 1] != '*')
  }

  lemma OperatorsSolid(w: string)
    requires w in OPERATORS
    ensures |w| >= 2
    ensures forall p :: 0 <= p < |w| ==>
      && w[p] != '"' && w[p] != '\'' && w[p] != ' '
      && (p > 0 ==> w[p] != '/' && (w[p - 1] == '/' ==> w[p] == '='))
  {
  }

  lemma NumberSolid(w: string)
    requires w != "" && Digit(w[0]) && NumberAt(w, |w|)
    ensures forall p :: 0 <= p < |w| ==> Part(w[p]) || w[p] == '.' || w[p] == '+' || w[p] == '-'
  {
    if !RadixHere(w) {
      var d: nat, f: nat, e: nat :| DecimalCuts(w, d, f, e, |w|);
      forall p | 0 <= p < |w| ensures Part(w[p]) || w[p] == '.' || w[p] == '+' || w[p] == '-' {
        if p >= e && e < |w| && Letter(w[e]) {
        } else if f <= p < e {
          if p > f && p < ExponentFrom(w, f) { assert p == f + 1; }
        }
      }
    }
  }

  lemma CodeWordSolid(w: string)
    requires CodeWord(w)
    ensures Solid(w)
  {
    hide NumberAt, OperatorAt, NoOperator, IdentAt, LifetimeAt, Solid;
    if w[0] == '\'' && Initial(w[1]) {
      LifetimeSolid(w);
    } else if Initial(w[0]) {
      IdentSolid(w);
    } else if Digit(w[0]) {
      NumberSolid(w);
      PartsSolid(w);
    } else if OperatorAt(w, |w|) {
      OperatorSolid(w);
    } else {
      OneSolid(w);
    }
  }

  lemma LifetimeSolid(w: string)
    requires LifetimeAt(w, |w|)
    ensures Solid(w)
  {
  }

  lemma IdentSolid(w: string)
    requires IdentAt(w, |w|)
    ensures Solid(w)
  {
  }

  lemma PartsSolid(w: string)
    requires forall p :: 0 <= p < |w| ==> Part(w[p]) || w[p] == '.' || w[p] == '+' || w[p] == '-'
    ensures Solid(w)
  {
  }

  lemma OperatorSolid(w: string)
    requires OperatorAt(w, |w|)
    ensures Solid(w)
  {
    assert w[..|w|] == w;
    OperatorsSolid(w);
    hide OperatorAt;
  }

  lemma OneSolid(w: string)
    requires |w| == 1 && w[0] != '"'
    ensures Solid(w)
  {
  }

  /* ---- What follows a word does not change it ---- */

  lemma RunStays(p: char -> bool, w: string, x: string, i: nat)
    requires RunTo(p, w, i, |w|) && !p(' ')
    ensures RunTo(p, w + (" " + x), i, |w|)
  {
  }

  lemma CutsStay(w: string, x: string, d: nat, f: nat, e: nat)
    requires DecimalCuts(w, d, f, e, |w|)
    ensures DecimalCuts(w + (" " + x), d, f, e, |w|)
  {
    var a := w + (" " + x);
    assert a[|w|] == ' ' && forall i :: 0 <= i < |w| ==> a[i] == w[i];
    RunInside(Digital, w, x, 1, d);
    assert PointHere(a, d) <==> PointHere(w, d);
    if PointHere(w, d) { RunInside(Digital, w, x, d + 1, f); }
    assert ExponentHere(a, f) <==> ExponentHere(w, f);
    if ExponentHere(w, f) { RunInside(Digital, w, x, ExponentFrom(w, f), e); }
    if e < |w| && Letter(w[e]) { RunInside(Part, w, x, e + 1, |w|); }
  }

  lemma RunInside(p: char -> bool, w: string, x: string, i: nat, n: nat)
    requires RunTo(p, w, i, n) && !p(' ')
    ensures RunTo(p, w + (" " + x), i, n)
  {
  }

  lemma NumberStays(w: string, x: string)
    requires w != "" && Digit(w[0]) && NumberAt(w, |w|)
    ensures NumberAt(w + (" " + x), |w|)
  {
    hide DecimalCuts, RunTo;
    var a := w + (" " + x);
    assert a[|w|] == ' ' && forall i :: 0 <= i < |w| ==> a[i] == w[i];
    assert RadixHere(a) <==> RadixHere(w);
    if RadixHere(w) {
      RunStays(Part, w, x, 2);
    } else {
      var d: nat, f: nat, e: nat :| DecimalCuts(w, d, f, e, |w|);
      CutsStay(w, x, d, f, e);
    }
  }

  lemma OperatorStays(w: string, x: string)
    requires w != "" && (OperatorAt(w, |w|) || (|w| == 1 && NoOperator(w)))
    ensures var a := w + (" " + x); OperatorAt(a, |w|) || (|w| == 1 && NoOperator(a))
  {
    var a := w + (" " + x);
    assert a[|w|] == ' ' && a[..|w|] == w;
    forall m | |w| < m <= |a| ensures a[..m] !in OPERATORS {
      assert a[..m][|w|] == a[|w|];
      if a[..m] in OPERATORS { OperatorsSolid(a[..m]); }
    }
    if OperatorAt(w, |w|) {
      assert w[..|w|] == w;
    } else {
      forall m | 0 <= m <= |a| ensures a[..m] !in OPERATORS {
        if m <= 1 { assert a[..m] == w[..m]; }
      }
    }
  }

  lemma CodeStays(w: string, x: string)
    requires CodeWord(w)
    ensures CodeAt(w + (" " + x), |w|)
  {
    hide NumberAt, OperatorAt, NoOperator;
    var a := w + (" " + x);
    assert a[|w|] == ' ' && forall i :: 0 <= i < |w| ==> a[i] == w[i];
    if w[0] == '\'' && Initial(w[1]) {
      RunStays(Part, w, x, 2);
    } else if Initial(w[0]) {
      assert RawIdentifier(a) <==> RawIdentifier(w);
      RunStays(Part, w, x, if RawIdentifier(w) then 3 else 1);
    } else if Digit(w[0]) {
      NumberStays(w, x);
    } else {
      OperatorStays(w, x);
    }
  }

  lemma QuotedStays(w: string, x: string)
    requires Quoted(w)
    ensures var a := w + x;
            if w[0] == '"' then StringExtent(a, |w|, 1) else a[..|w|] == w && IsCharLiteral(a[..|w|])
  {
    var a := w + x;
    assert a[..|w|] == w;
    if w[0] == '"' { StringStays(w, x); }
  }

  lemma StringStays(w: string, x: string)
    requires StringExtent(w, |w|, 1)
    ensures StringExtent(w + x, |w|, 1)
  {
    var a := w + x;
    forall q | 0 <= q < |w| ensures Closes(a, q) <==> Closes(w, q) {
      ClosesStays(w, x, q);
    }
    hide Closes;
  }

  lemma ClosesStays(w: string, x: string, q: nat)
    requires q < |w|
    ensures Closes(w + x, q) <==> Closes(w, q)
  {
    hide EvenBefore;
    var a := w + x;
    forall r: nat ensures EvenBefore(a, q, r) <==> EvenBefore(w, q, r) {
      EvenStays(w, x, q, r);
    }
  }

  lemma EvenStays(w: string, x: string, q: nat, r: nat)
    requires q < |w|
    ensures EvenBefore(w + x, q, r) <==> EvenBefore(w, q, r)
  {
    var a := w + x;
    assert forall i :: 0 <= i < |w| ==> a[i] == w[i];
    if RunBefore(a, q, r) {
      forall i | q - r <= i < q ensures w[i] == '\\' { assert a[i] == '\\'; }
    }
  }

  lemma RawStays(w: string, x: string, k: nat, h: nat)
    requires RawWord(w, k, h)
    ensures RawClosed(w + x, |w|, k, h)
  {
    var a := w + x;
    forall q: nat | q + h < |w| ensures RawCloses(a, q, h) <==> RawCloses(w, q, h) {
      RawCloseStays(w, x, q, h);
    }
    hide RawCloses;
  }

  lemma RawCloseStays(w: string, x: string, q: nat, h: nat)
    requires q + h < |w|
    ensures RawCloses(w + x, q, h) <==> RawCloses(w, q, h)
  {
    var a := w + x;
    assert forall i :: 0 <= i < |w| ==> a[i] == w[i];
    if RawCloses(a, q, h) {
      forall i | q + 1 <= i < q + 1 + h ensures w[i] == '#' { assert a[i] == '#'; }
    }
  }

  /* ---- What the lexer shows of a word ---- */

  // A code word is plain code.
  lemma WordPlain(w: string, x: string, prev: char, p: nat)
    requires CodeWord(w) && p < |w|
    ensures var a := w + (" " + x); Step(PrevAt(prev, a, p), a[p..]).kind == Plain
  {
    hide CodeAt, Extent;
    var a := w + (" " + x);
    var b := a[p..];
    CodeWordSolid(w);
    assert forall i :: 0 <= i < |w| - p ==> b[i] == w[p + i];
    assert b[|w| - p] == ' ';
    NoQuoteNear(b, |w| - p);
    if w[p] == '\'' {
      LifetimeOpens(w, p);
      LifetimeChars(w, b);
    }
    NotChar(b);
    PlainExtent(PrevAt(prev, a, p), b, |w| - p);
    StepMeans(PrevAt(prev, a, p), b, Segment(Plain, 1));
  }

  // No raw literal opens before a space that no quote precedes.
  lemma NoQuoteNear(b: string, m: nat)
    requires 0 < m < |b| && b[m] == ' ' && forall i :: 0 <= i < m ==> b[i] != '"'
    ensures !RawHere(b)
  {
    forall k: nat, h: nat ensures !RawOpens(b, k, h) {
      if RawOpens(b, k, h) { RawNoSpace(b, k, h, m); }
    }
  }

  lemma RawNoSpace(b: string, k: nat, h: nat, m: nat)
    requires RawOpens(b, k, h) && 0 < m < |b|
    ensures k + 1 + h < |b| && b[k + 1 + h] == '"' && (m <= k + 1 + h ==> b[m] != ' ')
  {
  }

  lemma LifetimeOpens(w: string, p: nat)
    requires CodeWord(w) && p < |w| && w[p] == '\''
    ensures p == 0 && |w| >= 2 && Initial(w[1])
  {
    hide LifetimeAt, IdentAt, NumberAt, NoOperator;
    CodeWordSolid(w);
    assert w[..|w|] == w;
    if OperatorAt(w, |w|) { OperatorsSolid(w); }
  }

  lemma LifetimeChars(w: string, b: string)
    requires CodeWord(w) && w[0] == '\'' && Initial(w[1]) && |b| > |w|
    requires b[|w|] == ' ' && forall i :: 0 <= i < |w| ==> b[i] == w[i]
    ensures |b| >= 3 && b[1] != '\\' && b[2] != '\''
  {
    CodeWordSolid(w);
  }

  lemma NotChar(b: string)
    requires b != "" && (b[0] != '\'' || (|b| >= 3 && b[1] != '\\' && b[2] != '\''))
    ensures !CharHere(b)
  {
    forall n: nat ensures n <= |b| ==> !IsCharLiteral(b[..n]) {
      if 3 <= n <= |b| { assert b[..n][0] == b[0] && b[..n][1] == b[1] && b[..n][2] == b[2]; }
    }
  }

  lemma PlainExtent(prev: char, b: string, m: nat)
    requires 0 < m < |b| && b[m] == ' ' && b[0] != '"' && !RawHere(b) && !CharHere(b)
    requires b[0] == '/' ==> b[1] != '/' && b[1] != '*'
    ensures Extent(prev, b, Segment(Plain, 1))
  {
    hide RawHere, CharHere;
  }

  // What the two views show of a text that starts with a word and a space.
  ghost predicate WordShown(prev: char, w: string, x: string, mask: string) {
    var a := w + (" " + x);
    && |mask| == |w|
    && Render(Kept, prev, a) == w + (" " + Render(Kept, ' ', x))
    && Render(Skeleton, prev, a) == mask + (" " + Render(Skeleton, ' ', x))
  }

  lemma CodeShown(prev: char, w: string, x: string)
    requires CodeWord(w)
    ensures WordShown(prev, w, x, w)
  {
    hide Step, Render, CodeAt;
    var a, n := w + (" " + x), |w|;
    forall p | 0 <= p < n + 1 ensures Step(PrevAt(prev, a, p), a[p..]).kind == Plain {
      if p < n {
        WordPlain(w, x, prev, p);
      } else {
        assert a[n..][0] == ' ';
        LexerIdempotence.BlankIsPlain(PrevAt(prev, a, p), a[p..]);
      }
    }
    PlainRun(Kept, prev, a, n + 1, 0);
    PlainRun(Skeleton, prev, a, n + 1, 0);
    assert a[..n + 1] == w + " " && a[n + 1..] == x && PrevAt(prev, a, n + 1) == ' ';
    Regroup(w, Render(Kept, ' ', x));
    Regroup(w, Render(Skeleton, ' ', x));
  }

  lemma Regroup(w: string, z: string)
    ensures (w + " ") + z == w + (" " + z)
  {
  }

  // A literal token of the lexer and the space behind it.
  lemma LiteralShown(prev: char, w: string, x: string, s: Segment)
    requires w != "" && s.len == |w| && (s.kind.Chr? || s.kind.Literal?)
    requires Step(prev, w + (" " + x)) == s
    ensures WordShown(prev, w, x, Spaces(w))
  {
    hide Step, Render, Spaces, Piece;
    var a := w + (" " + x);
    RenderStep(Kept, prev, a);
    RenderStep(Skeleton, prev, a);
    LexerIdempotence.PieceWhole(Kept, s, a);
    LexerIdempotence.PieceWhole(Skeleton, s, a);
    assert a[..|w|] == w && a[|w|..] == " " + x;
    SpaceShown(a[|w| - 1], x);
    SpacesLength(w);
  }

  lemma SpacesLength(w: string)
    ensures |Spaces(w)| == |w|
  {
  }

  lemma SpaceShown(prev: char, x: string)
    ensures Render(Kept, prev, " " + x) == " " + Render(Kept, ' ', x)
    ensures Render(Skeleton, prev, " " + x) == " " + Render(Skeleton, ' ', x)
  {
    hide Step, Render;
    LexerIdempotence.BlankIsPlain(prev, " " + x);
    PlainStep(Kept, prev, " " + x, 0);
    PlainStep(Skeleton, prev, " " + x, 0);
    assert (" " + x)[1..] == x;
  }

  // A quoted word is one token of the lexer.
  lemma QuotedStep(prev: char, w: string, x: string)
    requires Quoted(w)
    ensures w != "" && w[0] in "\"'"
    ensures var s := Step(prev, w + (" " + x)); s.len == |w| && (s.kind.Chr? || s.kind.Literal?)
  {
    hide Step, Extent, IsCharLiteral, StringExtent;
    QuotedFirst(w);
    QuotedStays(w, " " + x);
    var s := if w[0] == '"' then Segment(Literal(1, 1), |w|) else Segment(Chr, |w|);
    QuotedExtent(prev, w, x, s);
    StepMeans(prev, w + (" " + x), s);
  }

  lemma QuotedFirst(w: string)
    requires Quoted(w)
    ensures w != "" && w[0] in "\"'" && (w[0] == '\'' ==> IsCharLiteral(w))
  {
    hide StringExtent;
  }

  lemma QuotedExtent(prev: char, w: string, x: string, s: Segment)
    requires w != "" && w[0] in "\"'"
    requires var a := w + (" " + x);
             if w[0] == '"' then StringExtent(a, |w|, 1) && s == Segment(Literal(1, 1), |w|)
             else a[..|w|] == w && IsCharLiteral(a[..|w|]) && s == Segment(Chr, |w|)
    ensures Extent(prev, w + (" " + x), s)
  {
    hide StringExtent, IsCharLiteral;
    var a := w + (" " + x);
    assert a[0] == w[0];
    QuoteNotRaw(a);
  }

  lemma QuoteNotRaw(a: string)
    requires a != "" && a[0] != 'r' && !(|a| >= 2 && a[0] == 'b' && a[1] == 'r')
    ensures !RawHere(a)
  {
  }

  lemma RawStep(prev: char, w: string, x: string, k: nat, h: nat)
    requires RawWord(w, k, h) && !Wordlike(prev)
    ensures var s := Step(prev, w + (" " + x)); s.len == |w| && s.kind.Literal?
  {
    hide Step, Extent, RawExtent;
    var a := w + (" " + x);
    RawStays(w, " " + x, k, h);
    var s := Segment(Literal(k + h + 2, 1 + h), |w|);
    assert RawBy(a, s, k, h);
    RawFits(prev, a, s, k, h);
    StepMeans(prev, a, s);
  }

  lemma RawFits(prev: char, a: string, s: Segment, k: nat, h: nat)
    requires RawBy(a, s, k, h) && !Wordlike(prev) && a != ""
    ensures Extent(prev, a, s)
  {
    hide RawExtent, Wordlike;
  }

  /* ---- Reading a word back ---- */

  // The views from the word on start with the token `w`.
  ghost predicate ReadsWord(w: string, k: string, s: string) {
    && |k| == |s| && |w| < |k| && k[..|w|] == w && !White(k[0]) && TokenAt(k, s, |w|)
  }

  lemma CodeReads(w: string, x: string, y: string)
    requires CodeWord(w) && |x| == |y|
    ensures ReadsWord(w, w + (" " + x), w + (" " + y))
  {
    hide CodeAt;
    var k, s := w + (" " + x), w + (" " + y);
    CodeWordSolid(w);
    CodeStays(w, x);
    assert k[..|w|] == w && k[0] == w[0] == s[0];
    assert |k| > 1 && (|w| == 1 ==> k[1] == ' ') && (|w| > 1 ==> k[1] == w[1]);
    assert !LiteralHere(k, s);
  }

  lemma LiteralReads(w: string, x: string, y: string, lead: nat)
    requires |x| == |y| && lead < |w| && lead <= 1
    requires lead == 1 ==> w[0] == 'b'
    requires Quoted(w[lead..]) || (lead == 0 && exists k: nat, h: nat :: RawWord(w, k, h))
    ensures ReadsWord(w, w + (" " + x), w[..lead] + Spaces(w[lead..]) + (" " + y))
  {
    hide LiteralAt, Spaces, Quoted, RawWord;
    var k, s := w + (" " + x), w[..lead] + Spaces(w[lead..]) + (" " + y);
    assert k[..|w|] == w && k[0] == w[0];
    SpacesLength(w[lead..]);
    LiteralFront(w, lead);
    assert s[lead] == Spaces(w[lead..])[0] == ' ';
    assert lead == 1 ==> k[1] == w[1];
    if Quoted(w[lead..]) {
      QuotedReads(w, x, lead);
    } else {
      var j: nat, h: nat :| RawWord(w, j, h);
      RawReads(w, x, j, h);
    }
  }

  lemma LiteralFront(w: string, lead: nat)
    requires lead < |w| && lead <= 1
    requires Quoted(w[lead..]) || (lead == 0 && exists k: nat, h: nat :: RawWord(w, k, h))
    ensures w[lead] in "\"'rb" && Spaces(w[lead..])[0] == ' '
    ensures lead == 1 ==> w[1] in "\"'"
  {
    hide StringExtent, RawExtent;
    if Quoted(w[lead..]) { QuotedFirst(w[lead..]); }
  }

  lemma RawReads(w: string, x: string, j: nat, h: nat)
    requires RawWord(w, j, h) && w != ""
    ensures LiteralAt(w + (" " + x), |w|)
  {
    hide RawExtent, StringExtent, IsCharLiteral;
    RawStays(w, " " + x, j, h);
    var a := w + (" " + x);
    assert RawClosed(a, |w|, j, h) && RawOpens(a, j, h);
  }

  lemma QuotedReads(w: string, x: string, lead: nat)
    requires lead < |w| && lead <= 1 && Quoted(w[lead..])
    requires lead == 1 ==> w[0] == 'b'
    ensures LiteralAt(w + (" " + x), |w|)
  {
    hide StringExtent, IsCharLiteral;
    var a, v := w + (" " + x), w[lead..];
    QuotedFirst(v);
    QuotedStays(v, " " + x);
    assert a[lead..] == v + (" " + x) && a[lead] == w[lead] && a[0] == w[0];
    QuoteNotRaw(a);
    assert Prefix(a) == lead;
    if v[0] == '"' {
      NotChar(a[lead..]);
      assert QuotePrefix(a) == lead;
    } else {
      assert a[lead..|w|] == a[lead..][..|v|];
    }
  }

  lemma ByteShown(prev: char, w: string, x: string)
    requires w != "" && w[0] == 'b' && Quoted(w[1..]) && !Wordlike(prev)
    ensures WordShown(prev, w, x, "b" + Spaces(w[1..]))
  {
    hide Step, Render, Spaces, Quoted, Wordlike;
    var v := w[1..];
    QuotedFirst(v);
    QuotedStep('b', v, x);
    LiteralShown('b', v, x, Step('b', v + (" " + x)));
    ByteStep(prev, w, x);
    var a := w + (" " + x);
    PlainStep(Kept, prev, a, 0);
    PlainStep(Skeleton, prev, a, 0);
    assert a[0] == 'b' && a[1..] == v + (" " + x);
    Prepended(w, v, Spaces(v), Render(Kept, ' ', x), Render(Skeleton, ' ', x));
    SpacesLength(v);
  }

  lemma Prepended(w: string, v: string, m: string, k: string, s: string)
    requires w != "" && v == w[1..] && w[0] == 'b'
    ensures ['b'] + (v + (" " + k)) == w + (" " + k) && ['b'] + (m + (" " + s)) == ("b" + m) + (" " + s)
  {
    assert w == ['b'] + v;
  }

  lemma ByteStep(prev: char, w: string, x: string)
    requires w != "" && w[0] == 'b' && Quoted(w[1..])
    ensures Step(prev, w + (" " + x)).kind == Plain
  {
    hide Step, Quoted, Extent;
    var a := w + (" " + x);
    QuotedFirst(w[1..]);
    assert a[0] == 'b' && a[1] == w[1];
    QuoteNotRaw(a);
    NotChar(a);
    BytePlain(prev, a);
    StepMeans(prev, a, Segment(Plain, 1));
  }

  lemma BytePlain(prev: char, a: string)
    requires a != "" && a[0] == 'b' && !RawHere(a) && !CharHere(a)
    ensures Extent(prev, a, Segment(Plain, 1))
  {
    hide RawHere, CharHere;
  }

  // A word of either kind.
  lemma WordReads(prev: char, w: string, x: string)
    requires Word(w) && !Wordlike(prev) && |Render(Kept, ' ', x)| == |Render(Skeleton, ' ', x)|
    ensures var a := w + (" " + x);
            var k, s := Render(Kept, prev, a), Render(Skeleton, prev, a);
            && ReadsWord(w, k, s)
            && k[|w|..] == " " + Render(Kept, ' ', x) && s[|w|..] == " " + Render(Skeleton, ' ', x)
  {
    hide Step, Render, Spaces, CodeWord, Quoted, RawWord, Wordlike, ReadsWord;
    var x', y' := Render(Kept, ' ', x), Render(Skeleton, ' ', x);
    if CodeWord(w) {
      CodeShown(prev, w, x);
      CodeReads(w, x', y');
    } else if w != "" && w[0] == 'b' && Quoted(w[1..]) {
      ByteShown(prev, w, x);
      QuotedFirst(w[1..]);
      LiteralReads(w, x', y', 1);
      assert w[..1] == "b";
    } else {
      if Quoted(w) {
        QuotedStep(prev, w, x);
      } else {
        var k: nat, h: nat :| RawWord(w, k, h);
        RawNotEmpty(w, k, h);
        RawStep(prev, w, x, k, h);
      }
      LiteralShown(prev, w, x, Step(prev, w + (" " + x)));
      assert w[0..] == w && w[..0] == "" && "" + Spaces(w) == Spaces(w);
      LiteralReads(w, x', y', 0);
    }
  }

  lemma RawNotEmpty(w: string, k: nat, h: nat)
    requires RawWord(w, k, h)
    ensures w != ""
  {
    hide RawExtent;
  }

  lemma {:induction false} SpacedReads(prev: char, words: seq<string>, base: nat)
    requires !Wordlike(prev) && forall i :: 0 <= i < |words| ==> Word(words[i])
    ensures var a := Spaced(words);
            && |Render(Kept, prev, a)| == |Render(Skeleton, prev, a)|
            && Texts(Render(Kept, prev, a), Render(Skeleton, prev, a)) == Ok(words)
    decreases |words|
  {
    hide Step, Render, Word, Wordlike, TokenLen, TokenAt, White, IsSpace, Texts, Spans;
    if words == [] {
      NothingRead(prev);
    } else {
      var w, x := words[0], Spaced(words[1..]);
      NotWordlikeSpace();
      SpacedReads(' ', words[1..], base);
      WordReads(prev, w, x);
      var k, s := Render(Kept, prev, Spaced(words)), Render(Skeleton, prev, Spaced(words));
      TokenMeans(k, s, |w|);
      WhiteIs(k[0]);
      TokenEdits.TokenScan(k, s, 0);
      var k', s' := Render(Kept, ' ', x), Render(Skeleton, ' ', x);
      SpaceWhite();
      TokenEdits.SpaceScan(" " + k', " " + s', 0);
      assert (" " + k')[1..] == k' && (" " + s')[1..] == s';
      assert [w] + words[1..] == words;
    }
  }

  lemma NothingRead(prev: char)
    ensures Render(Kept, prev, "") == Render(Skeleton, prev, "") == "" && Texts("", "") == Ok([])
  {
  }

  lemma NotWordlikeSpace()
    ensures !Wordlike(' ') && !Wordlike('\n')
  {
  }

  lemma SpaceWhite()
    ensures IsSpace(' ')
  {
  }

  /** Any sequence of code tokens and closed literals, each followed by a space, is read back as it is. */
  lemma PrintedRead(words: seq<string>)
    requires forall i :: 0 <= i < |words| ==> Word(words[i])
    ensures Tokens(Spaced(words)) == Ok(words)
  {
    hide Render, DocSpans, Word, Wordlike, Texts;
    NotWordlikeSpace();
    SpacedReads('\n', words, 0);
  }
}
