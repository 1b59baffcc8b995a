/** When no raw literal follows a dot, a quote or a hash, tokens and lexer tokens are aligned:
    every literal token is one literal of the lexer and no token touches a comment. */
module AlignedTokens {
  import opened Prelude
  import opened RustLexer
  import LexerViews
  import opened LexerSteps
  import opened LexerRegions
  import opened LexerIdempotence
  import opened DocGaps
  import opened RustTokens
  import TokenCuts
  import opened TokenEdits

  predicate IsRaw(s: Segment) { s.kind.Literal? && s.kind.opener > 1 }

  // No raw literal starts right after `.`, `'` or `#`.
  predicate RawApart(prev: char, a: string)
    decreases |a|
  {
    a == [] ||
    var s := Step(prev, a);
    (IsRaw(s) ==> prev !in ".'#") && RawApart(a[s.len - 1], a[s.len..])
  }

  lemma RawApartStep(prev: char, a: string)
    requires a != [] && RawApart(prev, a)
    ensures var s := Step(prev, a); (IsRaw(s) ==> prev !in ".'#") && RawApart(a[s.len - 1], a[s.len..])
  {
  }

  lemma {:induction false} RawApartRun(prev: char, a: string, k: nat)
    requires k <= |a| && RawApart(prev, a)
    requires forall p :: 0 <= p < k ==> Step(PrevAt(prev, a, p), a[p..]).kind == Plain
    ensures RawApart(PrevAt(prev, a, k), a[k..])
    decreases k
  {
    hide Step, RawApart;
    assert a[0..] == a;
    if k > 0 {
      assert Step(PrevAt(prev, a, 0), a[0..]).kind == Plain;
      RawApartStep(prev, a);
      PlainIsOne(prev, a);
      var b := a[1..];
      forall p | 0 <= p < k - 1 ensures Step(PrevAt(a[0], b, p), b[p..]).kind == Plain {
        assert b[p..] == a[p + 1..];
        assert Step(PrevAt(prev, a, p + 1), a[p + 1..]).kind == Plain;
      }
      RawApartRun(a[0], b, k - 1);
      assert b[k - 1..] == a[k..];
    }
  }

  /* ---- The characters of a code token ---- */

  // `y` can follow `x` in a code token: no blank or quote, and no raw opener but after a
  // word character or one of the three characters above.
  predicate GoodPair(x: char, y: char) {
    y !in " \t\n\"'" && (y in "rb" ==> IdentPart(x) || x in ".'#")
  }

  ghost predicate Good(k: string, n: nat)
    requires n <= |k|
  {
    forall p :: 1 <= p < n ==> GoodPair(k[p - 1], k[p])
  }

  // The characters of a run that starts at offset `i`.
  lemma RunChars(p: char -> bool, k: string, i: nat)
    requires i <= |k|
    ensures forall j :: i <= j < i + Run(p, k[i..]) ==> p(k[j])
  {
  }

  lemma GoodLifetime(k: string)
    ensures Good(k, LifetimeLen(k))
  {
  }

  lemma GoodIdent(k: string)
    ensures Good(k, IdentLen(k))
  {
  }

  // What a number is made of; a sign has a digit after it.
  predicate NumberChar(k: string, p: nat, n: nat)
    requires p < n <= |k|
  {
    IdentPart(k[p]) || k[p] == '.' || (k[p] in "+-" && p + 1 < n && DigitPart(k[p + 1]))
  }

  ghost predicate NumberChars(k: string, n: nat)
    requires n <= |k|
  {
    forall p :: 0 <= p < n ==> NumberChar(k, p, n)
  }

  lemma NumberJoin(k: string, n: nat, m: nat)
    requires n <= |k| && NumberChars(k, n) && m <= |k[n..]| && NumberChars(k[n..], m)
    ensures NumberChars(k, n + m)
  {
    var t := n + m;
    forall p | 0 <= p < t ensures NumberChar(k, p, t) {
      if p < n {
        assert NumberChar(k, p, n);
      } else {
        assert NumberChar(k[n..], p - n, m);
        assert k[p] == k[n..][p - n];
        if p + 1 < t { assert k[p + 1] == k[n..][p + 1 - n]; }
      }
    }
  }

  lemma NumberParts(k: string)
    ensures NumberChars(k, FractionLen(k)) && NumberChars(k, ExponentLen(k)) && NumberChars(k, SuffixLen(k))
    ensures k != [] && IsDigit(k[0]) ==> NumberChars(k, 1 + Run(DigitPart, k[1..]))
    ensures NumberChars(k, RadixLen(k))
  {
    hide Run;
    if |k| >= 1 { RunChars(DigitPart, k, 1); RunChars(IdentPart, k, 1); }
    if |k| >= 2 { RunChars(DigitPart, k, 2); RunChars(IdentPart, k, 2); }
  }

  lemma NumberShape(k: string)
    ensures NumberChars(k, NumberLen(k))
  {
    hide Run, FractionLen, ExponentLen, SuffixLen, RadixLen, NumberChars;
    NumberParts(k);
    if RadixLen(k) == 0 {
      if k != [] && IsDigit(k[0]) { DecimalShape(k); } else { NoChars(k); }
    }
  }

  lemma NoChars(k: string)
    ensures NumberChars(k, 0)
  {
  }

  lemma DecimalShape(k: string)
    requires k != [] && IsDigit(k[0])
    ensures NumberChars(k, DecimalLen(k))
  {
    hide Run, FractionLen, ExponentLen, SuffixLen, RadixLen, NumberChars;
    NumberParts(k);
    var digits := 1 + Run(DigitPart, k[1..]);
    NumberParts(k[digits..]);
    NumberJoin(k, digits, FractionLen(k[digits..]));
    var point := digits + FractionLen(k[digits..]);
    NumberParts(k[point..]);
    NumberJoin(k, point, ExponentLen(k[point..]));
    var exponent := point + ExponentLen(k[point..]);
    NumberParts(k[exponent..]);
    NumberJoin(k, exponent, SuffixLen(k[exponent..]));
  }

  lemma GoodPunct(k: string)
    ensures Good(k, PunctLen(k))
  {
    var n := PunctLen(k);
    PunctIs(k);
    if n > 0 {
      TokenCuts.PunctChars(k[..n]);
      forall p | 1 <= p < n ensures GoodPair(k[p - 1], k[p]) { assert TokenCuts.PunctChar(k[..n][p]); }
    }
  }

  lemma PunctIs(k: string)
    ensures PunctLen(k) > 0 ==> k[..PunctLen(k)] in PUNCT3 || k[..PunctLen(k)] in PUNCT2
  {
  }

  lemma GoodCode(k: string)
    requires k != []
    ensures Good(k, CodeLen(k))
  {
    hide LifetimeLen, IdentLen, NumberLen, PunctLen;
    GoodLifetime(k);
    GoodIdent(k);
    GoodNumber(k);
    GoodPunct(k);
  }

  lemma GoodNumber(k: string)
    ensures Good(k, NumberLen(k))
  {
    hide NumberLen;
    NumberShape(k);
    var n := NumberLen(k);
    forall p | 1 <= p < n ensures GoodPair(k[p - 1], k[p]) {
      assert NumberChar(k, p - 1, n) && NumberChar(k, p, n);
    }
  }

  /* ---- A code token is plain code ---- */

  lemma PlainBefore(v: View, prev: char, a: string, p: nat)
    requires p <= |a|
    requires forall q :: 0 <= q < p ==> Step(PrevAt(prev, a, q), a[q..]).kind == Plain
    ensures Render(v, prev, a) == a[..p] + Render(v, PrevAt(prev, a, p), a[p..])
    ensures |Render(Kept, prev, a)| == |a|
  {
    hide Step, Render;
    PlainRun(v, prev, a, p, 0);
    LexerViews.RenderAligned(Kept, Kept, prev, a);
  }

  // The character after plain code, when it can go on a code token, is plain.
  lemma PlainNext(prev: char, a: string)
    requires a != [] && RawApart(prev, a)
    requires Render(Kept, prev, a) != [] && GoodPair(prev, Render(Kept, prev, a)[0])
    ensures Step(prev, a).kind == Plain
  {
  }

  lemma {:induction false} CodeIsPlain(prev: char, a: string, n: nat)
    requires RawApart(prev, a) && a != [] && Step(prev, a).kind == Plain
    requires 1 <= n <= |Render(Kept, prev, a)| && Good(Render(Kept, prev, a), n)
    ensures |Render(Kept, prev, a)| == |a|
    ensures forall p :: 0 <= p < n ==> Step(PrevAt(prev, a, p), a[p..]).kind == Plain
    decreases n
  {
    hide Step, Render, RawApart;
    LexerViews.RenderAligned(Kept, Kept, prev, a);
    assert a[0..] == a;
    if n > 1 {
      CodeIsPlain(prev, a, n - 1);
      PlainBefore(Kept, prev, a, n - 1);
      RawApartRun(prev, a, n - 1);
      var k := Render(Kept, prev, a);
      assert k[n - 2] == a[n - 2] && k[n - 1] == Render(Kept, a[n - 2], a[n - 1..])[0];
      assert GoodPair(k[n - 2], k[n - 1]);
      PlainNext(a[n - 2], a[n - 1..]);
    }
  }

  /* ---- A literal token is a literal of the lexer ---- */

  predicate IsLiteralStep(s: Segment) { s.kind.Chr? || s.kind.Literal? }

  lemma RawToken(prev: char, a: string, rest: string)
    requires a != [] && IsRaw(Step(prev, a))
    requires Step(prev, a).len == |a| ==> rest == []
    ensures var s := Step(prev, a);
            var k := a[..s.len] + rest;
            LiteralLen(k).Ok? ==> LiteralLen(k).value == s.len
  {
    hide RawBody, StrBody, BlockRun, LineRun, CharLen, RawOpen, ByteCharLen;
    var s := Step(prev, a);
    var k := a[..s.len] + rest;
    if s.len == |a| {
      assert k == a;
    } else {
      RawPrefix(a, k, s.len);
    }
  }

  // The length of a string or character literal read as a token, and with a byte prefix.
  lemma QuoteToken(prev: char, a: string, rest: string)
    requires a != [] && IsLiteralStep(Step(prev, a)) && !IsRaw(Step(prev, a))
    requires Step(prev, a).len == |a| ==> rest == []
    ensures var s := Step(prev, a);
            var k := a[..s.len] + rest;
            && k != [] && k[0] == a[0] && k[0] in "\"'"
            && (LiteralLen(k).Ok? ==> LiteralLen(k).value == s.len)
            && (LiteralLen(['b'] + k).Ok? ==> LiteralLen(['b'] + k).value == 1 + s.len)
  {
    hide RawBody, StrBody, BlockRun, LineRun, CharLen, LiteralLen;
    var s := Step(prev, a);
    var k := a[..s.len] + rest;
    assert k[0] == a[0] && k[..s.len] == a[..s.len];
    if a[0] == '"' {
      StringToken(k);
      if s.len == |a| {
        assert k == a;
      } else {
        TailPrefix(a, k, s.len, 1);
        StrBodyPrefix(a[1..], k[1..]);
      }
    } else {
      CharLenPrefix(a, k);
      CharToken(k);
    }
  }

  lemma StringToken(k: string)
    requires k != [] && k[0] == '"'
    ensures var b := StrBody(k[1..]);
            var r := if b.closed then Ok(1 + b.len) else Err(UnterminatedString);
            && LiteralLen(k) == r
            && LiteralLen(['b'] + k) == match r case Ok(n) => Ok(1 + n) case Err(e) => Err(e)
  {
  }

  lemma CharToken(k: string)
    requires CharLen(k).Some?
    ensures LiteralLen(k) == Ok(CharLen(k).value) && LiteralLen(['b'] + k) == Ok(1 + CharLen(k).value)
  {
  }

  /* ---- The token at a scanner position ---- */

  // The two views of what is left to read.
  function KeptOf(prev: char, a: string): string { Render(Kept, prev, a) }

  function SkelOf(prev: char, a: string): string { Render(Skeleton, prev, a) }

  lemma ViewLengths(prev: char, a: string)
    ensures |KeptOf(prev, a)| == |SkelOf(prev, a)| == |a|
  {
    hide Render;
    LexerViews.RenderAligned(Kept, Kept, prev, a);
    LexerViews.RenderAligned(Skeleton, Skeleton, prev, a);
  }

  // Reading on from offset `n` of `a`: the views split there.
  ghost predicate Splits(prev: char, a: string, n: nat)
  {
    && 1 <= n <= |a|
    && RawApart(a[n - 1], a[n..])
    && |KeptOf(prev, a)| == |SkelOf(prev, a)| == |a|
    && KeptOf(prev, a)[n..] == KeptOf(a[n - 1], a[n..])
    && SkelOf(prev, a)[n..] == SkelOf(a[n - 1], a[n..])
  }

  lemma StepSplits(prev: char, a: string)
    requires a != [] && RawApart(prev, a)
    ensures Splits(prev, a, Step(prev, a).len)
    ensures var s := Step(prev, a);
            && KeptOf(prev, a)[..s.len] == (if Shown(Kept, s) then a[..s.len] else Spaces(a[..s.len]))
            && SkelOf(prev, a)[..s.len] == (if Shown(Skeleton, s) then a[..s.len] else Spaces(a[..s.len]))
  {
    hide Step, Render, Piece, RawApart, Shown;
    ViewLengths(prev, a);
    RawApartStep(prev, a);
    RenderStep(Kept, prev, a);
    RenderStep(Skeleton, prev, a);
    PieceWhole(Kept, Step(prev, a), a);
    PieceWhole(Skeleton, Step(prev, a), a);
  }

  lemma PlainSplits(prev: char, a: string, n: nat)
    requires 1 <= n <= |a| && RawApart(prev, a)
    requires forall p :: 0 <= p < n ==> Step(PrevAt(prev, a, p), a[p..]).kind == Plain
    ensures Splits(prev, a, n)
  {
    hide Step, Render, RawApart;
    ViewLengths(prev, a);
    RawApartRun(prev, a, n);
    PlainBefore(Kept, prev, a, n);
    PlainBefore(Skeleton, prev, a, n);
  }

  lemma LiteralFirst(prev: char, a: string)
    requires a != [] && IsLiteralStep(Step(prev, a))
    ensures a[0] in "rb\"'"
  {
  }

  lemma KeptIs(prev: char, a: string)
    ensures KeptOf(prev, a) == Render(Kept, prev, a)
  {
  }

  // A byte prefix and its literal make one token.
  lemma ByteToken(prev: char, a: string)
    requires a != [] && RawApart(prev, a) && Step(prev, a).kind == Plain && !IsSpace(a[0])
    requires |KeptOf(prev, a)| == |SkelOf(prev, a)| == |a| && SkelOf(prev, a)[0] == a[0]
    requires IsLiteral(KeptOf(prev, a), SkelOf(prev, a))
    ensures |a| > 1 && IsLiteralStep(Step(a[0], a[1..]))
    ensures var r := TokenLen(KeptOf(prev, a), SkelOf(prev, a));
            r.Ok? ==> r.value == 1 + Step(a[0], a[1..]).len
  {
    hide Step, Render, RawApart, LiteralLen, KeptOf, SkelOf, IsSpace;
    var k, s := KeptOf(prev, a), SkelOf(prev, a);
    StepSplits(prev, a);
    PlainIsOne(prev, a);
    var b := a[1..];
    var k', s' := KeptOf(a[0], b), SkelOf(a[0], b);
    assert k[1..] == k' && s[1..] == s' && k'[0] == k[1] && s'[0] == s[1];
    StepSplits(a[0], b);
    var t := Step(a[0], b);
    ByteLiteral(t, b, k'[..t.len], s'[..t.len]);
    assert k == ['b'] + k' && k' == b[..t.len] + k'[t.len..];
    if IsRaw(t) { RawFirst(a[0], b); }
    QuoteToken(a[0], b, k'[t.len..]);
  }

  lemma RawFirst(prev: char, a: string)
    requires a != [] && IsRaw(Step(prev, a))
    ensures a[0] in "rb"
  {
  }

  // A quote that the kept view shows and the skeleton blanks opens a literal.
  lemma ByteLiteral(t: Segment, b: string, k: string, s: string)
    requires 1 <= t.len <= |b| && |k| == |s| == t.len
    requires k == (if Shown(Kept, t) then b[..t.len] else Spaces(b[..t.len]))
    requires s == (if Shown(Skeleton, t) then b[..t.len] else Spaces(b[..t.len]))
    requires k[0] in "\"'" && IsSpace(s[0])
    ensures IsLiteralStep(t) && b[0] == k[0] && k == b[..t.len]
  {
  }

  lemma ByteSplits(prev: char, a: string, n: nat)
    requires Splits(prev, a, 1) && Splits(a[0], a[1..], n)
    ensures Splits(prev, a, 1 + n)
  {
    hide RawApart, KeptOf, SkelOf;
    var b := a[1..];
    assert b[n..] == a[1 + n..] && b[n - 1] == a[n];
    assert KeptOf(prev, a)[1..][n..] == KeptOf(prev, a)[1 + n..];
    assert SkelOf(prev, a)[1..][n..] == SkelOf(prev, a)[1 + n..];
  }

  /* ---- What the token at a scanner position is ---- */

  lemma LiteralReads(prev: char, a: string)
    requires a != [] && RawApart(prev, a) && IsLiteralStep(Step(prev, a))
    ensures Splits(prev, a, Step(prev, a).len) && !IsSpace(KeptOf(prev, a)[0])
    ensures var r := TokenLen(KeptOf(prev, a), SkelOf(prev, a)); r.Ok? ==> r.value == Step(prev, a).len
  {
    hide Step, Render, RawApart, LiteralLen, KeptOf, SkelOf;
    var s := Step(prev, a);
    var k := KeptOf(prev, a);
    StepSplits(prev, a);
    LiteralFirst(prev, a);
    assert k[0] == k[..s.len][0] == a[0];
    assert SkelOf(prev, a)[0] == SkelOf(prev, a)[..s.len][0] == Spaces(a[..s.len])[0];
    assert k == a[..s.len] + k[s.len..];
    if IsRaw(s) { RawToken(prev, a, k[s.len..]); } else { QuoteToken(prev, a, k[s.len..]); }
  }

  // The first `n` characters are plain code.
  ghost predicate PlainFor(prev: char, a: string, n: nat) {
    n <= |a| && forall p :: 0 <= p < n ==> Step(PrevAt(prev, a, p), a[p..]).kind == Plain
  }

  // A byte prefix, and its literal up to `n`.
  ghost predicate ByteFor(prev: char, a: string, n: nat) {
    && PlainFor(prev, a, 1) && 1 < n <= |a| && a[0] == 'b'
    && IsLiteralStep(Step(a[0], a[1..])) && n == 1 + Step(a[0], a[1..]).len
  }

  // A token that starts in plain code: plain code, or a byte prefix and its literal.
  lemma CodeReads(prev: char, a: string)
    requires a != [] && RawApart(prev, a) && Step(prev, a).kind == Plain && !IsSpace(a[0])
    ensures var k, s := KeptOf(prev, a), SkelOf(prev, a);
            && |k| == |s| == |a| && k[0] == a[0]
            && var r := TokenLen(k, s);
               r.Ok? ==> Splits(prev, a, r.value) && (PlainFor(prev, a, r.value) || ByteFor(prev, a, r.value))
  {
    hide Step, Render, RawApart, LiteralLen, CodeLen, KeptOf, SkelOf, IsSpace, Splits, ByteFor, PlainFor;
    var k, s := KeptOf(prev, a), SkelOf(prev, a);
    FrontShown(prev, a);
    if IsLiteral(k, s) {
      ByteReads(prev, a);
    } else if TokenLen(k, s).Ok? {
      CodeRuns(prev, a, CodeLen(k));
    }
  }

  lemma FrontShown(prev: char, a: string)
    requires a != [] && RawApart(prev, a) && Step(prev, a).kind == Plain
    ensures var k, s := KeptOf(prev, a), SkelOf(prev, a); |k| == |s| == |a| && k[0] == a[0] == s[0]
    ensures Splits(prev, a, 1) && PlainFor(prev, a, 1) && RawApart(a[0], a[1..])
  {
    hide Step, Render, RawApart, KeptOf, SkelOf;
    var k, s := KeptOf(prev, a), SkelOf(prev, a);
    StepSplits(prev, a);
    PlainIsOne(prev, a);
    assert k[0] == k[..1][0] == a[0] && s[0] == s[..1][0] == a[0];
    assert a[0..] == a;
  }

  lemma CodeRuns(prev: char, a: string, n: nat)
    requires a != [] && RawApart(prev, a) && Step(prev, a).kind == Plain
    requires KeptOf(prev, a) != [] && n == CodeLen(KeptOf(prev, a))
    ensures Splits(prev, a, n) && PlainFor(prev, a, n)
  {
    hide Step, Render, RawApart, CodeLen, KeptOf, Splits;
    var k := KeptOf(prev, a);
    GoodCode(k);
    assert k == Render(Kept, prev, a) by { KeptIs(prev, a); }
    CodeIsPlain(prev, a, n);
    PlainSplits(prev, a, n);
  }

  lemma ByteReads(prev: char, a: string)
    requires a != [] && RawApart(prev, a) && Step(prev, a).kind == Plain && !IsSpace(a[0])
    requires |KeptOf(prev, a)| == |SkelOf(prev, a)| == |a| && SkelOf(prev, a)[0] == a[0] == KeptOf(prev, a)[0]
    requires IsLiteral(KeptOf(prev, a), SkelOf(prev, a))
    ensures var r := TokenLen(KeptOf(prev, a), SkelOf(prev, a));
            r.Ok? ==> Splits(prev, a, r.value) && ByteFor(prev, a, r.value)
  {
    hide Step, Render, RawApart, TokenLen, KeptOf, SkelOf, IsSpace, Splits, PlainFor;
    FrontShown(prev, a);
    ByteToken(prev, a);
    StepSplits(a[0], a[1..]);
    ByteSplits(prev, a, Step(a[0], a[1..]).len);
  }

  /* ---- Where a token ends ---- */

  predicate Solid(c: char) { c !in " \t" }

  lemma RawEndsSolid(k: string)
    requires RawOpen(k).Some?
    ensures var o := RawOpen(k).value;
            var b := RawBody(k[o.len..], o.hashes);
            b.closed ==> Solid(k[o.len + b.len - 1])
  {
    hide RawOpen, RawBody;
    var o := RawOpen(k).value;
    var rest := k[o.len..];
    if RawBody(rest, o.hashes).closed { RawBodyEnds(rest, o.hashes); }
  }

  lemma LiteralEndsSolid(k: string)
    requires k != [] && LiteralLen(k).Ok?
    ensures Solid(k[LiteralLen(k).value - 1])
  {
    hide RawOpen, RawBody, StrBody, CharLen;
    if RawOpen(k).Some? { RawEndsSolid(k); }
  }

  lemma TokenEndsAt(k: string, s: string)
    requires k != [] && |k| == |s| && !IsSpace(k[0]) && TokenLen(k, s).Ok?
    ensures Solid(k[TokenLen(k, s).value - 1])
  {
    hide LiteralLen, CodeLen, IsLiteral;
    if IsLiteral(k, s) {
      LiteralEndsSolid(k);
    } else {
      GoodCode(k);
      var n := CodeLen(k);
      if n > 1 { assert GoodPair(k[n - 2], k[n - 1]); }
    }
  }

  lemma {:induction false} SolidSpans(kept: string, skel: string, base: nat)
    requires |kept| == |skel| && base <= |kept| && Spans(kept[base..], skel[base..], base).Ok?
    ensures var spans := Spans(kept[base..], skel[base..], base).value;
            forall i :: 0 <= i < |spans| ==> 0 < spans[i].to <= |kept| && Solid(kept[spans[i].to - 1])
    decreases |kept| - base
  {
    hide TokenLen, IsSpace, Solid;
    if base < |kept| {
      DropBoth(kept, skel, base);
      if IsSpace(kept[base]) {
        SolidSpans(kept, skel, base + 1);
      } else {
        var n := TokenLen(kept[base..], skel[base..]).value;
        TokenEndsAt(kept[base..], skel[base..]);
        SolidSpans(kept, skel, base + n);
      }
    }
  }

  /* ---- Lexer tokens and their spans ---- */

  predicate IsComment(kind: Kind) { kind.LineComment? || kind.BlockComment? }

  predicate IsLiteralKind(kind: Kind) { kind.Chr? || kind.Literal? }

  predicate Apart(x: Span, y: Span) { x.to <= y.from || y.to <= x.from }

  // The token is the literal, with or without a byte prefix.
  predicate Reads(token: Span, region: Region, text: string) {
    && IsLiteralKind(region.kind) && region.span.to == token.to
    && (region.span.from == token.from
        || (region.span.from == token.from + 1 && token.from < |text| && text[token.from] == 'b'))
  }

  predicate Respects(token: Span, region: Region, text: string) {
    && (IsComment(region.kind) ==> Apart(token, region.span))
    && (IsLiteralKind(region.kind) ==> Apart(token, region.span) || Reads(token, region, text))
  }

  ghost predicate ReadBy(tokens: seq<Span>, region: Region, text: string) {
    exists i :: 0 <= i < |tokens| && Reads(tokens[i], region, text)
  }

  // No token touches a comment; a token that touches a literal is that literal; every literal is read.
  ghost predicate InStep(tokens: seq<Span>, regions: seq<Region>, text: string) {
    && (forall i, j :: 0 <= i < |tokens| && 0 <= j < |regions| ==> Respects(tokens[i], regions[j], text))
    && (forall j :: 0 <= j < |regions| && IsLiteralKind(regions[j].kind) ==> ReadBy(tokens, regions[j], text))
  }

  lemma AddRegion(region: Region, tokens: seq<Span>, regions: seq<Region>, text: string)
    requires InStep(tokens, regions, text)
    requires region.kind.Plain?
             || (IsComment(region.kind) && forall i :: 0 <= i < |tokens| ==> tokens[i].from >= region.span.to)
    ensures InStep(tokens, [region] + regions, text)
  {
    hide ReadBy, Reads;
    var all := [region] + regions;
    forall j | 0 <= j < |all| && IsLiteralKind(all[j].kind) ensures ReadBy(tokens, all[j], text) {
      assert all[j] == regions[j - 1];
    }
  }

  lemma AddToken(token: Span, tokens: seq<Span>, regions: seq<Region>, text: string)
    requires InStep(tokens, regions, text)
    requires forall j :: 0 <= j < |regions| ==> regions[j].span.from >= token.to
    ensures InStep([token] + tokens, regions, text)
  {
    hide Reads;
    var all := [token] + tokens;
    forall j | 0 <= j < |regions| && IsLiteralKind(regions[j].kind) ensures ReadBy(all, regions[j], text) {
      var i :| 0 <= i < |tokens| && Reads(tokens[i], regions[j], text);
      assert all[i + 1] == tokens[i];
    }
  }

  lemma AddLiteral(token: Span, region: Region, tokens: seq<Span>, regions: seq<Region>, text: string)
    requires InStep(tokens, regions, text) && Reads(token, region, text)
    requires forall j :: 0 <= j < |regions| ==> regions[j].span.from >= token.to
    requires forall i :: 0 <= i < |tokens| ==> tokens[i].from >= token.to
    ensures InStep([token] + tokens, [region] + regions, text)
  {
    AddToken(token, tokens, regions, text);
    var tokens', all := [token] + tokens, [region] + regions;
    hide Reads;
    forall j | 0 <= j < |all| && IsLiteralKind(all[j].kind) ensures ReadBy(tokens', all[j], text) {
      if j == 0 { assert Reads(tokens'[0], all[0], text); } else { assert all[j] == regions[j - 1]; }
    }
    forall i, j | 0 <= i < |tokens'| && 0 <= j < |all| ensures Respects(tokens'[i], all[j], text) {
      if j > 0 {
        assert all[j] == regions[j - 1];
      } else if i > 0 {
        assert tokens'[i] == tokens[i - 1];
        LiteralBefore(token, region, tokens[i - 1], text);
      }
    }
  }

  lemma LiteralBefore(token: Span, region: Region, later: Span, text: string)
    requires Reads(token, region, text) && later.from >= token.to
    ensures Respects(later, region, text) && Respects(token, region, text)
  {
  }

  // The spans of what is left to read.
  function SpansOf(prev: char, a: string, base: nat): Result<seq<Span>, TokenError> {
    ViewLengths(prev, a);
    Spans(KeptOf(prev, a), SkelOf(prev, a), base)
  }

  /* ---- The two scans together ---- */

  // The lexer and the token scan, both from offset `base` on.
  ghost predicate ScansInStep(prev: char, a: string, text: string, base: nat) {
    SpansOf(prev, a, base).Ok? ==> InStep(SpansOf(prev, a, base).value, Regions(prev, a, base), text)
  }

  lemma {:induction false} AlignedScan(prev: char, a: string, text: string, base: nat)
    requires base <= |text| && text[base..] == a && RawApart(prev, a)
    ensures ScansInStep(prev, a, text, base)
    decreases |a|
  {
    hide ScansInStep, Step, IsSpace, KeptOf, SkelOf, TokenLen, RawApart;
    if a == [] {
      NothingInStep(prev, text, base);
    } else {
      ViewLengths(prev, a);
      RawApartStep(prev, a);
      var s := Step(prev, a);
      if IsComment(s.kind) || (s.kind.Plain? && IsSpace(a[0])) {
        AlignedScan(a[s.len - 1], a[s.len..], text, base + s.len);
        BlankInStep(prev, a, text, base);
      } else if TokenLen(KeptOf(prev, a), SkelOf(prev, a)).Ok? {
        var n := TokenLen(KeptOf(prev, a), SkelOf(prev, a)).value;
        TokenSplits(prev, a);
        AlignedScan(a[n - 1], a[n..], text, base + n);
        TokenInStep(prev, a, text, base, n);
      } else {
        ErrorInStep(prev, a, text, base);
      }
    }
  }

  lemma NothingInStep(prev: char, text: string, base: nat)
    ensures ScansInStep(prev, [], text, base)
  {
  }

  lemma BlankInStep(prev: char, a: string, text: string, base: nat)
    requires a != [] && RawApart(prev, a)
    requires var s := Step(prev, a);
             && (IsComment(s.kind) || (s.kind.Plain? && IsSpace(a[0])))
             && ScansInStep(a[s.len - 1], a[s.len..], text, base + s.len)
    ensures ScansInStep(prev, a, text, base)
  {
    hide Step, RawApart, IsSpace, KeptOf, SkelOf, InStep, Spans, Regions;
    var s := Step(prev, a);
    var last, rest := a[s.len - 1], a[s.len..];
    BlankSpans(prev, a, base);
    RegionsStep(prev, a, base);
    if SpansOf(last, rest, base + s.len).Ok? {
      ViewLengths(last, rest);
      SpansFrom(KeptOf(last, rest), SkelOf(last, rest), base + s.len);
      AddRegion(Region(Span(base, base + s.len), s.kind), SpansOf(last, rest, base + s.len).value,
                Regions(last, rest, base + s.len), text);
    }
  }

  // The token at the front, whatever it starts in.
  lemma TokenSplits(prev: char, a: string)
    requires a != [] && RawApart(prev, a) && |KeptOf(prev, a)| == |SkelOf(prev, a)| == |a|
    requires var s := Step(prev, a); IsLiteralStep(s) || (s.kind.Plain? && !IsSpace(a[0]))
    requires TokenLen(KeptOf(prev, a), SkelOf(prev, a)).Ok?
    ensures var n := TokenLen(KeptOf(prev, a), SkelOf(prev, a)).value;
            && Splits(prev, a, n) && RawApart(a[n - 1], a[n..]) && !IsSpace(KeptOf(prev, a)[0])
            && (|| (IsLiteralStep(Step(prev, a)) && n == Step(prev, a).len)
                || PlainFor(prev, a, n) || ByteFor(prev, a, n))
  {
    hide Step, RawApart, IsSpace, KeptOf, SkelOf, TokenLen, PlainFor, ByteFor;
    if IsLiteralStep(Step(prev, a)) { LiteralReads(prev, a); } else { CodeReads(prev, a); }
  }

  lemma TokenInStep(prev: char, a: string, text: string, base: nat, n: nat)
    requires base <= |text| && text[base..] == a
    requires a != [] && RawApart(prev, a) && |KeptOf(prev, a)| == |SkelOf(prev, a)| == |a|
    requires var s := Step(prev, a); IsLiteralStep(s) || (s.kind.Plain? && !IsSpace(a[0]))
    requires TokenLen(KeptOf(prev, a), SkelOf(prev, a)) == Ok(n) && 1 <= n <= |a|
    requires ScansInStep(a[n - 1], a[n..], text, base + n)
    ensures ScansInStep(prev, a, text, base)
  {
    hide Step, RawApart, IsSpace, KeptOf, SkelOf, TokenLen, InStep, Spans, Regions, PlainFor, ByteFor, Splits;
    TokenSplits(prev, a);
    var last, rest := a[n - 1], a[n..];
    SpansOfToken(prev, a, base, n);
    var more := SpansOf(last, rest, base + n);
    if more.Ok? {
      ViewLengths(last, rest);
      SpansFrom(KeptOf(last, rest), SkelOf(last, rest), base + n);
      RegionsFrom(last, rest, base + n);
      if PlainFor(prev, a, n) {
        CodeInStep(prev, a, text, base, n, more.value);
      } else if ByteFor(prev, a, n) {
        ByteInStep(prev, a, text, base, n, more.value);
      } else {
        LiteralInStep(prev, a, text, base, more.value);
      }
    }
  }

  lemma SpansOfToken(prev: char, a: string, base: nat, n: nat)
    requires Splits(prev, a, n) && !IsSpace(KeptOf(prev, a)[0])
    requires TokenLen(KeptOf(prev, a), SkelOf(prev, a)) == Ok(n)
    ensures SpansOf(prev, a, base) ==
            match SpansOf(a[n - 1], a[n..], base + n)
            case Err(e) => Err(e)
            case Ok(spans) => Ok([Span(base, base + n)] + spans)
  {
    hide RawApart, IsSpace, KeptOf, SkelOf, TokenLen, Spans;
    TokenScan(KeptOf(prev, a), SkelOf(prev, a), base);
  }

  // What follows a token: later tokens and later lexer tokens, in step.
  ghost predicate Following(a: string, text: string, base: nat, n: nat, more: seq<Span>)
    requires 1 <= n <= |a|
  {
    var regions := Regions(a[n - 1], a[n..], base + n);
    && InStep(more, regions, text)
    && (forall i :: 0 <= i < |more| ==> more[i].from >= base + n)
    && (forall j :: 0 <= j < |regions| ==> regions[j].span.from >= base + n)
  }

  lemma {:induction false} PlainInStep(prev: char, a: string, text: string, base: nat, n: nat, tokens: seq<Span>)
    requires PlainFor(prev, a, n)
    requires InStep(tokens, Regions(PrevAt(prev, a, n), a[n..], base + n), text)
    ensures InStep(tokens, Regions(prev, a, base), text)
    decreases n
  {
    hide Step, InStep, Regions;
    assert a[0..] == a;
    if n > 0 {
      assert Step(PrevAt(prev, a, 0), a[0..]).kind == Plain;
      PlainIsOne(prev, a);
      var b := a[1..];
      forall p | 0 <= p < n - 1 ensures Step(PrevAt(a[0], b, p), b[p..]).kind == Plain {
        assert b[p..] == a[p + 1..];
        assert Step(PrevAt(prev, a, p + 1), a[p + 1..]).kind == Plain;
      }
      assert b[n - 1..] == a[n..] && PrevAt(a[0], b, n - 1) == PrevAt(prev, a, n);
      PlainInStep(a[0], b, text, base + 1, n - 1, tokens);
      RegionsStep(prev, a, base);
      AddRegion(Region(Span(base, base + 1), Plain), tokens, Regions(a[0], b, base + 1), text);
    }
  }

  lemma CodeInStep(prev: char, a: string, text: string, base: nat, n: nat, more: seq<Span>)
    requires 1 <= n <= |a| && PlainFor(prev, a, n) && Following(a, text, base, n, more)
    ensures InStep([Span(base, base + n)] + more, Regions(prev, a, base), text)
  {
    hide InStep, Regions, PlainFor;
    AddToken(Span(base, base + n), more, Regions(a[n - 1], a[n..], base + n), text);
    PlainInStep(prev, a, text, base, n, [Span(base, base + n)] + more);
  }

  lemma LiteralInStep(prev: char, a: string, text: string, base: nat, more: seq<Span>)
    requires a != [] && IsLiteralStep(Step(prev, a)) && Following(a, text, base, Step(prev, a).len, more)
    ensures InStep([Span(base, base + Step(prev, a).len)] + more, Regions(prev, a, base), text)
  {
    hide InStep, Regions, Step;
    var s := Step(prev, a);
    RegionsStep(prev, a, base);
    AddLiteral(Span(base, base + s.len), Region(Span(base, base + s.len), s.kind), more,
               Regions(a[s.len - 1], a[s.len..], base + s.len), text);
  }

  lemma ByteInStep(prev: char, a: string, text: string, base: nat, n: nat, more: seq<Span>)
    requires base <= |text| && text[base..] == a && 1 <= n <= |a|
    requires ByteFor(prev, a, n) && Following(a, text, base, n, more)
    ensures InStep([Span(base, base + n)] + more, Regions(prev, a, base), text)
  {
    hide InStep, Regions, Step, PlainFor;
    var b := a[1..];
    var t := Step(a[0], b);
    assert b[t.len..] == a[n..] && b[t.len - 1] == a[n - 1];
    RegionsStep(a[0], b, base + 1);
    assert text[base] == a[0];
    AddLiteral(Span(base, base + n), Region(Span(base + 1, base + n), t.kind), more,
               Regions(a[n - 1], a[n..], base + n), text);
    PlainInStep(prev, a, text, base, 1, [Span(base, base + n)] + more);
  }

  lemma ErrorInStep(prev: char, a: string, text: string, base: nat)
    requires a != [] && |KeptOf(prev, a)| == |SkelOf(prev, a)| == |a| && RawApart(prev, a)
    requires var s := Step(prev, a); IsLiteralStep(s) || (s.kind.Plain? && !IsSpace(a[0]))
    requires TokenLen(KeptOf(prev, a), SkelOf(prev, a)).Err?
    ensures ScansInStep(prev, a, text, base)
  {
    hide Step, RawApart, KeptOf, SkelOf, IsSpace, TokenLen, InStep;
    if IsLiteralStep(Step(prev, a)) { LiteralReads(prev, a); } else { CodeReads(prev, a); }
  }

  lemma SkipBlank(w: string, k: string, s: string, k0: string, s0: string, base: nat)
    requires |w| <= |k| == |s| && w == k[..|w|] && k0 == k[|w|..] && s0 == s[|w|..]
    requires forall i :: 0 <= i < |w| ==> w[i] in " \t\n"
    ensures Spans(k, s, base) == Spans(k0, s0, base + |w|)
  {
    hide Spans, IsSpace;
    BlankScan(w, k, s, base);
  }

  lemma BlankSpans(prev: char, a: string, base: nat)
    requires a != [] && RawApart(prev, a)
    requires var s := Step(prev, a);
             s.kind.LineComment? || s.kind.BlockComment? || (s.kind.Plain? && IsSpace(a[0]))
    ensures var n := Step(prev, a).len;
            SpansOf(prev, a, base) == SpansOf(a[n - 1], a[n..], base + n)
  {
    hide Step, Render, RawApart, Spans, KeptOf, SkelOf, IsSpace, Splits;
    if Step(prev, a).kind.Plain? { SpaceSpans(prev, a, base); } else { CommentSpans(prev, a, base); }
  }

  lemma SpaceSpans(prev: char, a: string, base: nat)
    requires a != [] && RawApart(prev, a) && Step(prev, a).kind.Plain? && IsSpace(a[0])
    ensures Step(prev, a).len == 1 && SpansOf(prev, a, base) == SpansOf(a[0], a[1..], base + 1)
  {
    hide Step, Render, RawApart, Spans, KeptOf, SkelOf, IsSpace, Splits;
    StepSplits(prev, a);
    PlainIsOne(prev, a);
    SplitsViews(prev, a, 1);
    ViewLengths(a[0], a[1..]);
    var k := KeptOf(prev, a);
    assert k[0] == k[..1][0] == a[0];
    SpaceScan(k, SkelOf(prev, a), base);
  }

  lemma CommentSpans(prev: char, a: string, base: nat)
    requires a != [] && RawApart(prev, a)
    requires Step(prev, a).kind.LineComment? || Step(prev, a).kind.BlockComment?
    ensures var n := Step(prev, a).len;
            SpansOf(prev, a, base) == SpansOf(a[n - 1], a[n..], base + n)
  {
    hide Step, Render, RawApart, Spans, KeptOf, SkelOf, Splits, Spaces;
    var n := Step(prev, a).len;
    StepSplits(prev, a);
    SplitsViews(prev, a, n);
    ViewLengths(a[n - 1], a[n..]);
    var k, w := KeptOf(prev, a), Spaces(a[..n]);
    BlankSpaces(a[..n]);
    assert k[..n] == w;
    SkipBlank(w, k, SkelOf(prev, a), KeptOf(a[n - 1], a[n..]), SkelOf(a[n - 1], a[n..]), base);
  }

  lemma SplitsViews(prev: char, a: string, n: nat)
    requires Splits(prev, a, n)
    ensures 1 <= n <= |a| == |KeptOf(prev, a)| == |SkelOf(prev, a)|
    ensures KeptOf(prev, a)[n..] == KeptOf(a[n - 1], a[n..]) && SkelOf(prev, a)[n..] == SkelOf(a[n - 1], a[n..])
  {
  }

  lemma BlankSpaces(a: string)
    ensures |Spaces(a)| == |a| && forall i :: 0 <= i < |a| ==> Spaces(a)[i] in " \t\n"
  {
  }

  /** When no raw literal of the text follows a dot, a quote or a hash and `tokens` returns, no
      token touches a comment, every token that touches a literal of the lexer is exactly that
      literal with an optional byte prefix, and every literal is read by a token. */
  lemma TokensInStep(text: string)
    requires RawApart('\n', text) && TokenSpans(text).Ok?
    ensures InStep(TokenSpans(text).value, Regions('\n', text, 0), text)
  {
    hide InStep, Regions, Spans, RawApart, Render, DocSpans;
    assert text[0..] == text;
    AlignedScan('\n', text, text, 0);
  }
}
