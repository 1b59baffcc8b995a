/** The whole token scan, said without its lengths: which sequences of spans it can return. */
module TokenReading {
  import opened Prelude
  import opened RustLexer
  import opened RustTokens
  import opened LexerExtents
  import opened CodeTokens

  // The white-space characters.
  predicate White(c: char) {
    || c == '\t' || c == '\n' || c == '\U{0b}' || c == '\U{0c}' || c == '\r'
    || c == '\U{1c}' || c == '\U{1d}' || c == '\U{1e}' || c == '\U{1f}' || c == ' '
    || c == '\U{85}' || c == '\U{a0}' || c == '\U{1680}' || '\U{2000}' <= c <= '\U{200a}'
    || c == '\U{2028}' || c == '\U{2029}' || c == '\U{202f}' || c == '\U{205f}' || c == '\U{3000}'
  }

  /* ---- Literals ---- */

  // One `b` in front.
  function Prefix(a: string): nat { if a != "" && a[0] == 'b' then 1 else 0 }

  function QuotePrefix(a: string): nat { if |a| >= 2 && a[0] == 'b' && a[1] == '"' then 1 else 0 }

  ghost predicate RawClosed(a: string, n: nat, k: nat, h: nat) { RawOpens(a, k, h) && RawExtent(a, k + h + 2, h, n, 1 + h) }

  // The literal at the front of `a` is closed and `n` long.
  ghost predicate LiteralAt(a: string, n: nat)
    requires a != ""
  {
    if RawHere(a) then exists k: nat, h: nat :: RawClosed(a, n, k, h)
    else if CharHere(a[Prefix(a)..]) then Prefix(a) <= n <= |a| && IsCharLiteral(a[Prefix(a)..n])
    else a[QuotePrefix(a)] == '"' && QuotePrefix(a) <= n && StringExtent(a[QuotePrefix(a)..], n - QuotePrefix(a), 1)
  }

  lemma PrefixesAre(a: string)
    ensures "b" <= a <==> Prefix(a) == 1
    ensures a != "" ==> QuoteAt(a) == QuotePrefix(a)
  {
    if a != "" && a[0] == 'b' { assert a[..1] == "b"; }
    if |a| >= 2 && a[0] == 'b' && a[1] == '"' { assert a[..2] == "b\""; }
    if |a| >= 2 && "b\"" <= a { assert a[0] == "b\""[0] && a[1] == "b\""[1]; }
  }

  lemma RawLiteralIs(a: string, n: nat)
    requires RawOpen(a).Some?
    ensures LiteralLen(a) == Ok(n) <==> LiteralAt(a, n)
  {
    hide RawOpen, RawBody, RawOpens, RawExtent, StrBody, ByteCharLen, StringExtent, IsCharLiteral, CharHere;
    RawMeans(a);
    var o := RawOpen(a).value;
    var k, h := o.len - o.hashes - 2, o.hashes;
    var b := RawBody(a[o.len..], h);
    RawScan(a, o.len, h);
    if b.closed && n == o.len + b.len { assert RawClosed(a, n, k, h); }
    if LiteralAt(a, n) {
      var k': nat, h': nat :| RawClosed(a, n, k', h');
      RawWritten(a, k', h');
      RawOnce(a, o.len, h, o.len + b.len, if b.closed then 1 + h else 0, n, 1 + h);
    }
  }

  lemma CharLiteralIs(a: string, n: nat)
    requires a != "" && RawOpen(a).None? && CharHere(a[Prefix(a)..])
    ensures LiteralLen(a) == Ok(n) <==> LiteralAt(a, n)
  {
    hide RawOpen, CharLen, RawHere, StrBody, RawBody, IsCharLiteral, StringExtent, CharHere;
    RawMeans(a);
    PrefixesAre(a);
    var x := a[Prefix(a)..];
    CharMeans(x);
    var m := CharLen(x).value;
    assert x[..m] == a[Prefix(a)..Prefix(a) + m];
    if LiteralAt(a, n) {
      assert x[..n - Prefix(a)] == a[Prefix(a)..n];
      CharWritten(x, n - Prefix(a));
    }
  }

  lemma StringLiteralIs(a: string, n: nat)
    requires a != "" && RawOpen(a).None? && !CharHere(a[Prefix(a)..])
    ensures LiteralLen(a) == Ok(n) <==> LiteralAt(a, n)
  {
    hide RawOpen, CharLen, RawHere, StrBody, RawBody, IsCharLiteral, StringExtent, CharHere;
    RawMeans(a);
    PrefixesAre(a);
    CharMeans(a[Prefix(a)..]);
    var q := QuotePrefix(a);
    var x := a[q..];
    if a[q] == '"' {
      StringRead(x);
      assert x[1..] == a[q + 1..];
      var b := StrBody(x[1..]);
      if q <= n && StringExtent(x, n - q, 1) {
        StringOnce(x, 1 + b.len, if b.closed then 1 else 0, n - q, 1);
      }
    }
  }

  lemma LiteralMeans(a: string, n: nat)
    requires a != ""
    ensures LiteralLen(a) == Ok(n) <==> LiteralAt(a, n)
  {
    hide LiteralLen, LiteralAt, CharHere;
    if RawOpen(a).Some? {
      RawLiteralIs(a, n);
    } else if CharHere(a[Prefix(a)..]) {
      CharLiteralIs(a, n);
    } else {
      StringLiteralIs(a, n);
    }
  }

  /* ---- Tokens ---- */

  // The skeleton is blank here, or after a byte prefix.
  predicate LiteralHere(kept: string, skel: string)
    requires |kept| == |skel| > 0
  {
    || White(skel[0])
    || (|kept| > 1 && kept[0] == 'b' && (kept[1] == '"' || kept[1] == '\'') && White(skel[1]))
  }

  ghost predicate TokenAt(kept: string, skel: string, n: nat)
    requires |kept| == |skel| > 0
  {
    if LiteralHere(kept, skel) then LiteralAt(kept, n) else kept[0] <= '\U{7f}' && CodeAt(kept, n)
  }

  lemma WhiteIs(c: char)
    ensures IsSpace(c) <==> White(c)
  {
  }

  lemma LiteralHereIs(kept: string, skel: string)
    requires |kept| == |skel| > 0
    ensures IsLiteral(kept, skel) <==> LiteralHere(kept, skel)
  {
    hide IsSpace, White;
    WhiteIs(skel[0]);
    if |skel| > 1 { WhiteIs(skel[1]); }
  }

  lemma TokenMeans(kept: string, skel: string, n: nat)
    requires |kept| == |skel| > 0
    ensures TokenLen(kept, skel) == Ok(n) <==> TokenAt(kept, skel, n)
  {
    hide IsLiteral, LiteralHere, LiteralLen, CodeLen, LiteralAt, CodeAt;
    LiteralHereIs(kept, skel);
    LiteralMeans(kept, n);
    CodeMeans(kept, n);
  }

  // The tokens from offset `at` on: white space is passed over, everything else is a token.
  ghost predicate Reading(kept: string, skel: string, at: nat, spans: seq<Span>)
    requires |kept| == |skel|
    decreases |kept| - at
  {
    if at >= |kept| then spans == []
    else if White(kept[at]) then Reading(kept, skel, at + 1, spans)
    else
      && spans != [] && spans[0].from == at < spans[0].to
      && TokenAt(kept[at..], skel[at..], spans[0].to - at)
      && Reading(kept, skel, spans[0].to, spans[1..])
  }

  lemma {:induction false} ScanReads(kept: string, skel: string, at: nat, spans: seq<Span>)
    requires |kept| == |skel| && at <= |kept|
    ensures Spans(kept[at..], skel[at..], at) == Ok(spans) <==> Reading(kept, skel, at, spans)
    decreases |kept| - at
  {
    hide TokenLen, TokenAt, IsSpace, White;
    if at < |kept| {
      DropBoth(kept, skel, at);
      WhiteIs(kept[at]);
      if White(kept[at]) {
        ScanReads(kept, skel, at + 1, spans);
      } else {
        if spans != [] && at < spans[0].to {
          TokenMeans(kept[at..], skel[at..], spans[0].to - at);
        }
        if TokenLen(kept[at..], skel[at..]).Ok? {
          var n := TokenLen(kept[at..], skel[at..]).value;
          if spans != [] { ScanReads(kept, skel, at + n, spans[1..]); }
          SpansStep(kept, skel, at, n, spans);
        }
      }
    }
  }

  lemma SpansStep(kept: string, skel: string, at: nat, n: nat, spans: seq<Span>)
    requires at < |kept| == |skel| && !IsSpace(kept[at]) && TokenLen(kept[at..], skel[at..]) == Ok(n)
    ensures Spans(kept[at..], skel[at..], at) == Ok(spans) <==>
            spans != [] && spans[0] == Span(at, at + n) && Spans(kept[at + n..], skel[at + n..], at + n) == Ok(spans[1..])
  {
    hide TokenLen, IsSpace;
    DropBoth(kept, skel, at);
    var rest := Spans(kept[at + n..], skel[at + n..], at + n);
    if rest.Ok? {
      assert ([Span(at, at + n)] + rest.value)[1..] == rest.value;
    }
    if spans != [] { assert spans == [spans[0]] + spans[1..]; }
  }

  /** `tokens` returns exactly the one reading of the two views, and raises when there is none. */
  lemma TokensMean(text: string, spans: seq<Span>)
    ensures |Lexed(text).kept| == |Lexed(text).skeleton|
    ensures TokenSpans(text) == Ok(spans) <==> Reading(Lexed(text).kept, Lexed(text).skeleton, 0, spans)
  {
    hide Render, DocSpans, Spans, Reading;
    LexerViewsOf(text);
    var kept, skel := Lexed(text).kept, Lexed(text).skeleton;
    assert kept[0..] == kept && skel[0..] == skel;
    ScanReads(kept, skel, 0, spans);
  }
}
