/** The token tuple of a Rust source (`tokens` in `scripts/_rust_equivalence.py`). It scans
    the kept view and asks the skeleton which offsets are literals. */
module RustTokens {
  import opened Prelude
  import opened RustLexer
  import LexerViews
  import LexerIdempotence

  // `str.isspace`
  predicate IsSpace(c: char) {
    || '\t' <= c <= '\r' || '\U{1c}' <= c <= ' ' || c == '\U{85}' || c == '\U{a0}'
    || c == '\U{1680}' || '\U{2000}' <= c <= '\U{200a}' || c == '\U{2028}' || c == '\U{2029}'
    || c == '\U{202f}' || c == '\U{205f}' || c == '\U{3000}'
  }

  predicate IsDigit(c: char) { '0' <= c <= '9' }

  predicate IsLetter(c: char) { 'a' <= c <= 'z' || 'A' <= c <= 'Z' }

  predicate IdentStart(c: char) { IsLetter(c) || c == '_' }

  predicate IdentPart(c: char) { IdentStart(c) || IsDigit(c) }

  predicate DigitPart(c: char) { IsDigit(c) || c == '_' }

  function Run(p: char -> bool, a: string): (n: nat)
    ensures n <= |a|
    ensures forall i :: 0 <= i < n ==> p(a[i])
    ensures n < |a| ==> !p(a[n])
  {
    if a == [] || !p(a[0]) then 0 else 1 + Run(p, a[1..])
  }

  /* ---- Code tokens; length 0 is no match ---- */

  // A quote and an identifier.
  function LifetimeLen(a: string): (n: nat)
    ensures n <= |a|
  {
    if |a| >= 2 && a[0] == '\'' && IdentStart(a[1]) then 2 + Run(IdentPart, a[2..]) else 0
  }

  // An identifier, raw or not.
  function IdentLen(a: string): (n: nat)
    ensures n <= |a|
  {
    if |a| >= 3 && "r#" <= a && IdentStart(a[2]) then 3 + Run(IdentPart, a[3..])
    else if a != [] && IdentStart(a[0]) then 1 + Run(IdentPart, a[1..])
    else 0
  }

  // A point that is not the first of two, and digits.
  function FractionLen(a: string): (n: nat)
    ensures n <= |a|
  {
    if "." <= a && !(".." <= a) then 1 + Run(DigitPart, a[1..]) else 0
  }

  // An exponent has at least one digit after its sign.
  function ExponentLen(a: string): (n: nat)
    ensures n <= |a|
  {
    if a == [] || a[0] !in "eE" then 0
    else
      var k := if |a| > 1 && a[1] in "+-" then 2 else 1;
      var r := Run(DigitPart, a[k..]);
      if r == 0 then 0 else k + r
  }

  // A type suffix.
  function SuffixLen(a: string): (n: nat)
    ensures n <= |a|
  {
    if a != [] && IsLetter(a[0]) then 1 + Run(IdentPart, a[1..]) else 0
  }

  // A decimal number with its optional parts, in this order.
  function DecimalLen(a: string): (n: nat)
    requires a != []
    ensures n <= |a|
  {
    var digits := 1 + Run(DigitPart, a[1..]);
    var point := digits + FractionLen(a[digits..]);
    var exponent := point + ExponentLen(a[point..]);
    exponent + SuffixLen(a[exponent..])
  }

  // A hexadecimal, octal or binary number.
  function RadixLen(a: string): (n: nat)
    ensures n <= |a|
  {
    if |a| >= 3 && a[0] == '0' && a[1] in "xob" && IdentPart(a[2]) then 2 + Run(IdentPart, a[2..]) else 0
  }

  function NumberLen(a: string): (n: nat)
    ensures n <= |a|
  {
    if RadixLen(a) > 0 then RadixLen(a)
    else if a == [] || !IsDigit(a[0]) then 0
    else DecimalLen(a)
  }

  const PUNCT3 := ["<<=", ">>=", "..=", "..."]
  const PUNCT2 := ["::", "->", "=>", "==", "!=", "<=", ">=", "&&", "||", "+=", "-=", "*=",
                   "/=", "%=", "^=", "&=", "|=", "<<", ">>", ".."]

  function PunctLen(a: string): (n: nat)
    ensures n <= |a|
  {
    if |a| >= 3 && a[..3] in PUNCT3 then 3
    else if |a| >= 2 && a[..2] in PUNCT2 then 2
    else 0
  }

  function CodeLen(a: string): (n: nat)
    requires a != []
    ensures 1 <= n <= |a|
  {
    if LifetimeLen(a) > 0 then LifetimeLen(a)
    else if IdentLen(a) > 0 then IdentLen(a)
    else if NumberLen(a) > 0 then NumberLen(a)
    else if PunctLen(a) > 0 then PunctLen(a)
    else 1
  }

  /* ---- Literals ---- */

  datatype TokenError = UnterminatedRaw | UnterminatedString | UnsupportedLiteral | NonAscii

  // A character literal with an optional byte prefix.
  function ByteCharLen(a: string): (n: nat)
    ensures n <= |a|
  {
    var b := if "b" <= a then 1 else 0;
    match CharLen(a[b..])
    case Some(n) => b + n
    case None => 0
  }

  function QuoteAt(a: string): (q: nat)
    requires a != []
  {
    if "b\"" <= a then 1 else 0
  }

  function LiteralLen(a: string): (r: Result<nat, TokenError>)
    requires a != []
    ensures r.Ok? ==> 1 <= r.value <= |a|
  {
    if RawOpen(a).Some? then
      var o := RawOpen(a).value;
      var b := RawBody(a[o.len..], o.hashes);
      if b.closed then Ok(o.len + b.len) else Err(UnterminatedRaw)
    else if ByteCharLen(a) > 0 then Ok(ByteCharLen(a))
    else if a[QuoteAt(a)] == '"' then
      var b := StrBody(a[QuoteAt(a) + 1..]);
      if b.closed then Ok(QuoteAt(a) + 1 + b.len) else Err(UnterminatedString)
    else Err(UnsupportedLiteral)
  }

  // The skeleton is blank at a literal; a byte prefix is code and goes with its literal.
  predicate IsLiteral(kept: string, skel: string)
    requires |kept| == |skel| && kept != []
  {
    || IsSpace(skel[0])
    || (kept[0] == 'b' && |kept| > 1 && kept[1] in "\"'" && IsSpace(skel[1]))
  }

  function TokenLen(kept: string, skel: string): (r: Result<nat, TokenError>)
    requires |kept| == |skel| && kept != []
    ensures r.Ok? ==> 1 <= r.value <= |kept|
  {
    if IsLiteral(kept, skel) then LiteralLen(kept)
    else if kept[0] as int > 127 then Err(NonAscii)
    else Ok(CodeLen(kept))
  }

  /* ---- The scan ---- */

  // The token texts of what is left to read.
  function Texts(kept: string, skel: string): (r: Result<seq<string>, TokenError>)
    requires |kept| == |skel|
    decreases |kept|
  {
    if kept == [] then Ok([])
    else if IsSpace(kept[0]) then Texts(kept[1..], skel[1..])
    else
      match TokenLen(kept, skel)
      case Err(e) => Err(e)
      case Ok(n) =>
        match Texts(kept[n..], skel[n..])
        case Err(e) => Err(e)
        case Ok(texts) => Ok([kept[..n]] + texts)
  }

  // The token spans of what is left to read at offset `base`.
  function Spans(kept: string, skel: string, base: nat): (r: Result<seq<Span>, TokenError>)
    requires |kept| == |skel|
    decreases |kept|
  {
    if kept == [] then Ok([])
    else if IsSpace(kept[0]) then Spans(kept[1..], skel[1..], base + 1)
    else
      match TokenLen(kept, skel)
      case Err(e) => Err(e)
      case Ok(n) =>
        match Spans(kept[n..], skel[n..], base + n)
        case Err(e) => Err(e)
        case Ok(spans) => Ok([Span(base, base + n)] + spans)
  }

  lemma {:induction false} SpansTexts(k: string, s: string, base: nat)
    requires |k| == |s|
    ensures match Spans(k, s, base)
            case Err(e) => Texts(k, s) == Err(e)
            case Ok(spans) => Texts(k, s).Ok? && |Texts(k, s).value| == |spans|
    decreases |k|
  {
    hide TokenLen, IsSpace;
    if k != [] {
      if IsSpace(k[0]) {
        SpansTexts(k[1..], s[1..], base + 1);
      } else if TokenLen(k, s).Ok? {
        var n := TokenLen(k, s).value;
        SpansTexts(k[n..], s[n..], base + n);
      }
    }
  }

  function TokenSpans(text: string): Result<seq<Span>, TokenError> {
    LexerViewsOf(text);
    Spans(Lexed(text).kept, Lexed(text).skeleton, 0)
  }

  lemma LexerViewsOf(text: string)
    ensures |Lexed(text).kept| == |Lexed(text).skeleton| == |text|
  {
    hide Render, DocSpans;
    LexerViews.RenderAligned(Kept, Kept, '\n', text);
    LexerViews.RenderAligned(Skeleton, Skeleton, '\n', text);
  }

  // `tokens(text)`: the tuple, or that it raises.
  function Tokens(text: string): Result<seq<string>, TokenError> {
    LexerViewsOf(text);
    Texts(Lexed(text).kept, Lexed(text).skeleton)
  }

  /* ---- The loop ---- */

  // `out` are the tokens before the scan's offset; `whole` is the outcome of the whole scan.
  ghost predicate Scanned(out: seq<string>, rest: Result<seq<string>, TokenError>,
                          whole: Result<seq<string>, TokenError>)
  {
    whole == match rest case Err(e) => Err(e) case Ok(more) => Ok(out + more)
  }

  method TokenTuple(text: string) returns (r: Result<seq<string>, TokenError>)
    ensures r == Tokens(text)
  {
    hide Lexed, TokenLen, IsLiteral, LiteralLen, CodeLen, IsSpace;
    var parsed := Lex(text);
    var kept, skel := parsed.kept, parsed.skeleton;
    LexerViewsOf(text);
    var out: seq<string> := [];
    var i := 0;
    assert kept[0..] == kept && skel[0..] == skel;
    Start(Texts(kept, skel));
    while i < |kept|
      invariant 0 <= i <= |kept|
      invariant Scanned(out, Texts(kept[i..], skel[i..]), Texts(kept, skel))
    {
      DropBoth(kept, skel, i);
      if IsSpace(kept[i]) {
        i := i + 1;
      } else {
        var start := i;
        var end := TokenEnd(kept, skel, i);
        if end.Err? {
          return Err(end.error);
        }
        i := end.value;
        assert kept[start..][..i - start] == kept[start..i];
        Extend(out, kept[start..i], Texts(kept[i..], skel[i..]), Texts(kept, skel));
        out := out + [kept[start..i]];
      }
    }
    r := Ok(out);
    assert out + [] == out;
  }

  lemma Start(whole: Result<seq<string>, TokenError>)
    ensures Scanned([], whole, whole)
  {
    if whole.Ok? { assert [] + whole.value == whole.value; }
  }

  lemma Extend(out: seq<string>, token: string, rest: Result<seq<string>, TokenError>,
               whole: Result<seq<string>, TokenError>)
    requires Scanned(out, match rest case Err(e) => Err(e) case Ok(more) => Ok([token] + more), whole)
    ensures Scanned(out + [token], rest, whole)
  {
    if rest.Ok? {
      assert out + ([token] + rest.value) == (out + [token]) + rest.value;
    }
  }

  lemma DropBoth(kept: string, skel: string, i: nat)
    requires i < |kept| == |skel|
    ensures kept[i..][0] == kept[i]
    ensures forall n :: 0 <= n <= |kept| - i ==> kept[i..][n..] == kept[i + n..] && skel[i..][n..] == skel[i + n..]
  {
  }

  // The end of the token at `i`.
  method TokenEnd(kept: string, skel: string, i: nat) returns (end: Result<nat, TokenError>)
    requires i < |kept| == |skel|
    ensures TokenLen(kept[i..], skel[i..])
         == match end case Err(e) => Err(e) case Ok(j) => Ok(j - i)
    ensures end.Ok? ==> i < end.value <= |kept|
  {
    hide RawBody, StrBody, CharLen, CodeLen, Hashes;
    var a := kept[i..];
    if IsLiteral(a, skel[i..]) {
      var raw := RawOpen(a);
      if raw.Some? {
        var from := i + raw.value.len;
        var j, closed := RawEnd(kept, from, raw.value.hashes);
        assert kept[from..] == a[raw.value.len..];
        end := if closed then Ok(j) else Err(UnterminatedRaw);
      } else if ByteCharLen(a) > 0 {
        end := Ok(i + ByteCharLen(a));
      } else if a[QuoteAt(a)] == '"' {
        var from := i + QuoteAt(a);
        var j, closed := StringEnd(kept, from);
        assert kept[from + 1..] == a[QuoteAt(a) + 1..];
        end := if closed then Ok(j) else Err(UnterminatedString);
      } else {
        end := Err(UnsupportedLiteral);
      }
    } else if a[0] as int > 127 {
      end := Err(NonAscii);
    } else {
      end := Ok(i + CodeLen(a));
    }
  }

  /* ---- Nothing is dropped and nothing is read twice ---- */

  ghost predicate Tiling(spans: seq<Span>, kept: string, base: nat) {
    && (forall i :: 0 <= i < |spans| ==> base <= spans[i].from < spans[i].to <= |kept|)
    && (forall i, j :: 0 <= i < j < |spans| ==> spans[i].to <= spans[j].from)
    && (forall p :: base <= p < |kept| && !IsSpace(kept[p]) ==> Covered(spans, p))
  }

  ghost predicate Covered(spans: seq<Span>, p: nat) {
    exists i :: 0 <= i < |spans| && spans[i].from <= p < spans[i].to
  }

  lemma TilingNil(kept: string)
    ensures Tiling([], kept, |kept|)
  {
  }

  lemma TilingSpace(spans: seq<Span>, kept: string, base: nat)
    requires base < |kept| && IsSpace(kept[base]) && Tiling(spans, kept, base + 1)
    ensures Tiling(spans, kept, base)
  {
  }

  lemma TilingToken(span: Span, spans: seq<Span>, kept: string)
    requires span.from < span.to <= |kept| && Tiling(spans, kept, span.to)
    ensures Tiling([span] + spans, kept, span.from)
  {
    hide IsSpace;
    var all := [span] + spans;
    forall p: nat | span.from <= p < |kept| && !IsSpace(kept[p]) ensures Covered(all, p) {
      if p < span.to {
        assert all[0].from <= p < all[0].to;
      } else {
        assert Covered(spans, p);
        var i :| 0 <= i < |spans| && spans[i].from <= p < spans[i].to;
        assert all[i + 1] == spans[i];
      }
    }
  }

  lemma {:induction false} SpansTile(kept: string, skel: string, base: nat)
    requires |kept| == |skel| && base <= |kept| && Spans(kept[base..], skel[base..], base).Ok?
    ensures Tiling(Spans(kept[base..], skel[base..], base).value, kept, base)
    decreases |kept| - base
  {
    hide TokenLen, IsSpace, Tiling;
    if base == |kept| {
      TilingNil(kept);
    } else {
      DropBoth(kept, skel, base);
      if IsSpace(kept[base]) {
        SpansTile(kept, skel, base + 1);
        TilingSpace(Spans(kept[base + 1..], skel[base + 1..], base + 1).value, kept, base);
      } else {
        var n := TokenLen(kept[base..], skel[base..]).value;
        SpansTile(kept, skel, base + n);
        TilingToken(Span(base, base + n), Spans(kept[base + n..], skel[base + n..], base + n).value, kept);
      }
    }
  }

  lemma {:induction false} TextsAreSlices(kept: string, skel: string, base: nat)
    requires |kept| == |skel| && base <= |kept| && Spans(kept[base..], skel[base..], base).Ok?
    ensures var spans := Spans(kept[base..], skel[base..], base).value;
            var texts := Texts(kept[base..], skel[base..]);
            && texts.Ok? && |texts.value| == |spans|
            && forall i :: 0 <= i < |spans| ==>
                 spans[i].from <= spans[i].to <= |kept| && texts.value[i] == kept[spans[i].from..spans[i].to]
    decreases |kept| - base
  {
    hide TokenLen, IsSpace;
    if base < |kept| {
      DropBoth(kept, skel, base);
      if IsSpace(kept[base]) {
        TextsAreSlices(kept, skel, base + 1);
      } else {
        var n := TokenLen(kept[base..], skel[base..]).value;
        TextsAreSlices(kept, skel, base + n);
        assert kept[base..][..n] == kept[base..base + n];
      }
    }
  }

  /** When `tokens` returns, its tokens are the slices of the kept view at non-empty,
      ordered, disjoint spans, and every character outside them is white space. */
  lemma TokensTile(text: string)
    requires Tokens(text).Ok?
    ensures TokenSpans(text).Ok?
    ensures var spans := TokenSpans(text).value;
            && Tiling(spans, Lexed(text).kept, 0)
            && |Tokens(text).value| == |spans|
            && forall i :: 0 <= i < |spans| ==>
                 Tokens(text).value[i] == Lexed(text).kept[spans[i].from..spans[i].to]
  {
    hide Lexed, Spans, Texts;
    LexerViewsOf(text);
    var kept, skel := Lexed(text).kept, Lexed(text).skeleton;
    assert kept[0..] == kept && skel[0..] == skel;
    SpansTexts(kept, skel, 0);
    SpansTile(kept, skel, 0);
    TextsAreSlices(kept, skel, 0);
  }

  /** Comment contents never reach the tokens. */
  lemma TokensOfKept(text: string)
    ensures Tokens(Lexed(text).kept) == Tokens(text)
    ensures TokenSpans(Lexed(text).kept) == TokenSpans(text)
  {
    hide Lexed;
    LexerIdempotence.LexIdempotent(text);
  }
}
