/** The one Rust lexer (`scripts/_rust_source.py`).

    The scanner is specified on the suffix that is still to be read: `Step(prev, a)` is
    the token at the front of `a`, where `prev` is the character before it, and
    `Render(v, prev, a)` is what view `v` shows of `a`. `Lex` is the source's loop over
    offsets and buffers. */
module RustLexer {
  import opened Prelude

  // The non-ASCII characters for which `str.isalnum` holds: any set of characters.
  const WIDE_ALNUM: set<char>

  predicate IsWord(c: char) {
    || 'a' <= c <= 'z' || 'A' <= c <= 'Z' || '0' <= c <= '9' || c == '_'
    || (c >= '\U{80}' && c in WIDE_ALNUM)
  }

  predicate IsHex(c: char) {
    '0' <= c <= '9' || 'a' <= c <= 'f' || 'A' <= c <= 'F'
  }

  /* ---- Blanking and counting ---- */

  function Blank(c: char): char {
    if c == '\n' then '\n' else ' '
  }

  function Spaces(a: string): string {
    seq(|a|, i requires 0 <= i < |a| => Blank(a[i]))
  }

  function Repeat(c: char, n: nat): string {
    seq(n, i => c)
  }

  function Newlines(a: string): nat {
    if a == [] then 0 else (if a[0] == '\n' then 1 else 0) + Newlines(a[1..])
  }

  function Join(pieces: seq<string>): string {
    if pieces == [] then [] else Join(pieces[..|pieces| - 1]) + pieces[|pieces| - 1]
  }

  /* ---- The tokens that are not plain code ---- */

  // `//` up to the newline, which is not part of the comment.
  function LineRun(a: string): (n: nat)
    ensures n <= |a|
  {
    if a == [] || a[0] == '\n' then 0 else 1 + LineRun(a[1..])
  }

  // What is left of a block comment nested `depth` deep; all of `a` when it never closes.
  function BlockRun(a: string, depth: nat): (n: nat)
    ensures n <= |a|
  {
    if depth == 0 || a == [] then 0
    else if "/*" <= a then 2 + BlockRun(a[2..], depth + 1)
    else if "*/" <= a then 2 + BlockRun(a[2..], depth - 1)
    else 1 + BlockRun(a[1..], depth)
  }

  datatype Body = Body(len: nat, closed: bool) {
    function Plus(n: nat): Body { Body(n + len, closed) }
  }

  // A string literal after its opening quote; a backslash hides the next character.
  function StrBody(a: string): (b: Body)
    ensures b.len <= |a|
    ensures b.closed ==> b.len > 0 && a[b.len - 1] == '"'
    ensures !b.closed ==> b.len == |a|
  {
    if a == [] then Body(0, false)
    else if a[0] == '"' then Body(1, true)
    else if a[0] == '\\' then
      if |a| == 1 then Body(1, false) else StrBody(a[2..]).Plus(2)
    else StrBody(a[1..]).Plus(1)
  }

  function Closer(hashes: nat): string {
    "\"" + Repeat('#', hashes)
  }

  // A raw literal after its opener: up to and with the first closer.
  function RawBody(a: string, hashes: nat): (b: Body)
    ensures b.len <= |a|
    ensures b.closed ==> b.len > hashes
    ensures !b.closed ==> b.len == |a|
  {
    if a == [] then Body(0, false)
    else if Closer(hashes) <= a then Body(1 + hashes, true)
    else RawBody(a[1..], hashes).Plus(1)
  }

  function Hashes(a: string): (n: nat)
    ensures n <= |a|
    ensures forall i :: 0 <= i < n ==> a[i] == '#'
    ensures n < |a| ==> a[n] != '#'
  {
    if a == [] || a[0] != '#' then 0 else 1 + Hashes(a[1..])
  }

  datatype Opener = Opener(len: nat, hashes: nat)

  // An optional `b`, an `r`, hashes and the quote.
  function RawOpen(a: string): (o: Option<Opener>)
    ensures o.Some? ==> 2 <= o.value.len <= |a| && o.value.hashes + 2 <= o.value.len <= o.value.hashes + 3
    ensures o.Some? ==> a[0] in "rb" && a[o.value.len - 1] == '"'
  {
    var r := if "b" <= a then 1 else 0;
    if r < |a| && a[r] == 'r' then
      var h := Hashes(a[r + 1..]);
      if r + 1 + h < |a| && a[r + 1 + h] == '"' then Some(Opener(r + 2 + h, h)) else None
    else None
  }

  function HexRun(a: string): (n: nat)
    ensures n <= |a|
  {
    if a == [] || !IsHex(a[0]) then 0 else 1 + HexRun(a[1..])
  }

  // The escape after a backslash and before the closing quote, as `_CHAR` reads it.
  function EscapeLen(a: string): (n: Option<nat>)
    ensures n.Some? ==> 1 <= n.value < |a| && a[n.value] == '\''
  {
    if |a| >= 4 && a[0] == 'x' && IsHex(a[1]) && IsHex(a[2]) && a[3] == '\'' then Some(3)
    else if "u{" <= a && 1 <= HexRun(a[2..]) <= 6 && "}'" <= a[2 + HexRun(a[2..])..] then
      Some(3 + HexRun(a[2..]))
    else if |a| >= 2 && a[0] != '\n' && a[1] == '\'' then Some(1)
    else None
  }

  // A character literal at the front of `a`: its whole length.
  function CharLen(a: string): (n: Option<nat>)
    ensures n.Some? ==> 3 <= n.value <= |a| && a[0] == '\'' && a[n.value - 1] == '\''
  {
    if |a| < 3 || a[0] != '\'' then None
    else if a[1] == '\\' then
      match EscapeLen(a[2..])
      case Some(n) => Some(n + 3)
      case None => None
    else if a[1] != '\'' && a[1] != '\n' && a[2] == '\'' then Some(3)
    else None
  }

  /* ---- One scanner step ---- */

  datatype Kind = Plain | LineComment | BlockComment | Chr | Literal(opener: nat, closer: nat)

  datatype Segment = Segment(kind: Kind, len: nat)

  function Step(prev: char, a: string): (s: Segment)
    requires a != []
    ensures 1 <= s.len <= |a|
    ensures s.kind.Literal? ==> s.kind.opener + s.kind.closer <= s.len
    ensures s.kind.Chr? ==> s.len >= 3
  {
    if "//" <= a then Segment(LineComment, LineRun(a))
    else if "/*" <= a then Segment(BlockComment, 2 + BlockRun(a[2..], 1))
    else if RawOpen(a).Some? && !IsWord(prev) then
      var o := RawOpen(a).value;
      var b := RawBody(a[o.len..], o.hashes);
      Segment(Literal(o.len, if b.closed then 1 + o.hashes else 0), o.len + b.len)
    else if a[0] == '"' then
      var b := StrBody(a[1..]);
      Segment(Literal(1, if b.closed then 1 else 0), 1 + b.len)
    else if CharLen(a).Some? then Segment(Chr, CharLen(a).value)
    else Segment(Plain, 1)
  }

  // Offsets `from` up to, and without, `to`.
  datatype Span = Span(from: nat, to: nat)

  predicate IsDoc(s: Segment, a: string) {
    s.kind.LineComment? && "///" <= a && !("////" <= a)
  }

  /* ---- The four views ---- */

  datatype View = Code | Skeleton | Kept | KeptSkeleton

  function Piece(v: View, s: Segment, a: string): string
    requires s.len <= |a|
    requires s.kind.Literal? ==> s.kind.opener + s.kind.closer <= s.len
    requires s.kind.Chr? ==> s.len >= 3
  {
    var word := a[..s.len];
    match s.kind
    case Plain => word
    case LineComment => if v.Code? then "" else Spaces(word)
    case BlockComment => if v.Code? then Repeat('\n', Newlines(word)) else Spaces(word)
    case Chr => LiteralPiece(v, word, "' '", 1, 1)
    case Literal(opener, closer) =>
      LiteralPiece(v, word, "\"\"" + Repeat('\n', Newlines(word)), opener, closer)
  }

  function LiteralPiece(v: View, word: string, code: string, opener: nat, closer: nat): string
    requires opener + closer <= |word|
  {
    match v
    case Code => code
    case Skeleton => Spaces(word)
    case Kept => word
    case KeptSkeleton =>
      word[..opener] + Spaces(word[opener..|word| - closer]) + word[|word| - closer..]
  }

  function Render(v: View, prev: char, a: string): string
    decreases |a|
  {
    if a == [] then []
    else
      var s := Step(prev, a);
      Piece(v, s, a) + Render(v, a[s.len - 1], a[s.len..])
  }

  // The `///` comments of `a`, whose first character is at offset `base`.
  function DocSpans(prev: char, a: string, base: nat): seq<Span>
    decreases |a|
  {
    if a == [] then []
    else
      var s := Step(prev, a);
      (if IsDoc(s, a) then [Span(base, base + s.len)] else [])
      + DocSpans(a[s.len - 1], a[s.len..], base + s.len)
  }

  datatype RustSource = RustSource(
    code: string, skeleton: string, kept: string, keptSkeleton: string,
    lineDocs: seq<Span>)

  // A newline stands for "no character before the text": neither is a word character.
  function Lexed(text: string): RustSource {
    RustSource(
      Render(Code, '\n', text), Render(Skeleton, '\n', text),
      Render(Kept, '\n', text), Render(KeptSkeleton, '\n', text),
      DocSpans('\n', text, 0))
  }

  /* ---- The loop ---- */

  function PrevAt(prev: char, a: string, i: nat): char
    requires i <= |a|
  {
    if i == 0 then prev else a[i - 1]
  }

  predicate SpecialAt(a: string)
    requires a != []
  {
    "//" <= a || "/*" <= a || RawOpen(a).Some? || a[0] == '"' || a[0] == '\''
  }

  lemma DocSpansStep(prev: char, a: string, base: nat)
    ensures a == [] ==> DocSpans(prev, a, base) == []
    ensures a != [] ==>
      var s := Step(prev, a);
      var rest := DocSpans(a[s.len - 1], a[s.len..], base + s.len);
      DocSpans(prev, a, base) == if IsDoc(s, a) then [Span(base, base + s.len)] + rest else rest
  {
  }

  lemma RenderStep(v: View, prev: char, a: string)
    requires a != []
    ensures var s := Step(prev, a);
            Render(v, prev, a) == Piece(v, s, a) + Render(v, a[s.len - 1], a[s.len..])
  {
  }

  lemma PlainStep(v: View, prev: char, a: string, base: nat)
    requires a != [] && Step(prev, a).kind == Plain
    ensures Step(prev, a).len == 1
    ensures Render(v, prev, a) == [a[0]] + Render(v, a[0], a[1..])
    ensures DocSpans(prev, a, base) == DocSpans(a[0], a[1..], base + 1)
  {
    assert a[..1] == [a[0]];
  }

  lemma {:induction false} PlainRun(v: View, prev: char, a: string, k: nat, base: nat)
    requires k <= |a|
    requires forall p :: 0 <= p < k ==> Step(PrevAt(prev, a, p), a[p..]).kind == Plain
    ensures Render(v, prev, a) == a[..k] + Render(v, PrevAt(prev, a, k), a[k..])
    ensures DocSpans(prev, a, base) == DocSpans(PrevAt(prev, a, k), a[k..], base + k)
    decreases k
  {
    hide Step, Render, DocSpans;
    assert a[0..] == a;
    if k > 0 {
      var b := a[1..];
      forall p | 0 <= p < k - 1 ensures Step(PrevAt(a[0], b, p), b[p..]).kind == Plain {
        assert b[p..] == a[p + 1..];
      }
      PlainStep(v, prev, a, base);
      PlainRun(v, a[0], b, k - 1, base + 1);
      assert b[k - 1..] == a[k..];
      assert a[..k] == [a[0]] + b[..k - 1];
    }
  }

  lemma {:induction false} JoinAppend(pieces: seq<string>, piece: string)
    ensures Join(pieces + [piece]) == Join(pieces) + piece
  {
  }

  // The lists `emit`, `blank_comment` and `blank_literal` append to.
  class Buffers {
    const text: string
    var code: seq<string>
    var skel: seq<string>
    var kept: seq<string>
    var keptSkel: seq<string>

    constructor (text: string)
      ensures this.text == text
      ensures code == skel == kept == keptSkel == []
    {
      this.text := text;
      code, skel, kept, keptSkel := [], [], [], [];
    }

    function Shown(v: View): string
      reads this
    {
      match v
      case Code => Join(code)
      case Skeleton => Join(skel)
      case Kept => Join(kept)
      case KeptSkeleton => Join(keptSkel)
    }

    method Emit(head: string)
      modifies this
      ensures forall v :: Shown(v) == old(Shown(v)) + head
    {
      hide Join;
      JoinAppend(code, head); JoinAppend(skel, head); JoinAppend(kept, head); JoinAppend(keptSkel, head);
      code, skel := code + [head], skel + [head];
      kept, keptSkel := kept + [head], keptSkel + [head];
    }

    method BlankComment(a: nat, b: nat)
      requires a <= b <= |text|
      modifies this
      ensures code == old(code)
      ensures forall v: View :: !v.Code? ==> Shown(v) == old(Shown(v)) + Spaces(text[a..b])
    {
      var blank := Spaces(text[a..b]);
      JoinAppend(skel, blank); JoinAppend(kept, blank); JoinAppend(keptSkel, blank);
      skel, kept, keptSkel := skel + [blank], kept + [blank], keptSkel + [blank];
    }

    method BlankLiteral(a: nat, b: nat, opener: nat, closer: nat)
      requires a <= b <= |text| && opener + closer <= b - a
      modifies this
      ensures var blank := "\"\"" + Repeat('\n', Newlines(text[a..b]));
              && code == old(code) + [blank]
              && forall v :: Shown(v) == old(Shown(v)) + LiteralPiece(v, text[a..b], blank, opener, closer)
    {
      hide Spaces, Newlines, Repeat, Join;
      var word := text[a..b];
      var blank := "\"\"" + Repeat('\n', Newlines(word));
      var interior := word[..opener] + Spaces(word[opener..|word| - closer]) + word[|word| - closer..];
      JoinAppend(code, blank); JoinAppend(skel, Spaces(word)); JoinAppend(kept, word); JoinAppend(keptSkel, interior);
      code := code + [blank];
      skel, kept, keptSkel := skel + [Spaces(word)], kept + [word], keptSkel + [interior];
    }
  }

  // Everything before offset `i` has been shown, and the rest is still to come.
  ghost predicate Caught(b: Buffers, docs: seq<Span>, text: string, i: nat)
    requires i <= |text|
    reads b
  {
    && (forall v :: b.Shown(v) + Render(v, PrevAt('\n', text, i), text[i..]) == Render(v, '\n', text))
    && docs + DocSpans(PrevAt('\n', text, i), text[i..], i) == DocSpans('\n', text, 0)
  }

  lemma TakeStep(text: string, start: nat)
    requires start < |text|
    ensures var a := text[start..];
            var s := Step(PrevAt('\n', text, start), a);
            && (forall v :: Render(v, PrevAt('\n', text, start), a)
                  == Piece(v, s, a) + Render(v, PrevAt('\n', text, start + s.len), text[start + s.len..]))
            && DocSpans(PrevAt('\n', text, start), a, start)
               == (if IsDoc(s, a) then [Span(start, start + s.len)] else [])
                  + DocSpans(PrevAt('\n', text, start + s.len), text[start + s.len..], start + s.len)
  {
    hide Step, Piece, IsDoc;
    var a := text[start..];
    var s := Step(PrevAt('\n', text, start), a);
    assert a[s.len..] == text[start + s.len..];
    assert a[s.len - 1] == PrevAt('\n', text, start + s.len);
  }

  // `_SPECIAL.search`: the first offset from `i` on at which a special token may start.
  method FindSpecial(text: string, i: nat) returns (start: nat)
    requires i <= |text|
    ensures i <= start <= |text|
    ensures forall p :: i <= p < start ==> !SpecialAt(text[p..])
    ensures start < |text| ==> SpecialAt(text[start..])
  {
    start := i;
    while start < |text| && !SpecialAt(text[start..])
      invariant i <= start <= |text|
      invariant forall p :: i <= p < start ==> !SpecialAt(text[p..])
    {
      start := start + 1;
    }
  }

  method LineEnd(text: string, start: nat) returns (end: nat)
    requires start <= |text|
    ensures end == start + LineRun(text[start..]) <= |text|
  {
    end := start;
    while end < |text| && text[end] != '\n'
      invariant start <= end <= |text|
      invariant LineRun(text[start..]) == end - start + LineRun(text[end..])
    {
      assert text[end..][1..] == text[end + 1..];
      end := end + 1;
    }
  }

  lemma {:induction false} NewlinesAppend(a: string, b: string)
    ensures Newlines(a + b) == Newlines(a) + Newlines(b)
  {
    if a == [] {
      assert a + b == b;
    } else {
      assert (a + b)[1..] == a[1..] + b;
      NewlinesAppend(a[1..], b);
    }
  }

  lemma {:induction false} NoNewlines(a: string)
    requires '\n' !in a
    ensures Newlines(a) == 0
  {
    if a != [] { NoNewlines(a[1..]); }
  }

  lemma BlockTurn(a: string, depth: nat, n: nat, deeper: nat)
    requires depth > 0 && a != [] && n <= |a|
    requires if "/*" <= a then n == 2 && deeper == depth + 1
             else if "*/" <= a then n == 2 && deeper == depth - 1
             else n == 1 && deeper == depth
    ensures BlockRun(a, depth) == n + BlockRun(a[n..], deeper)
    ensures Newlines(a[..n]) == if n == 1 && a[0] == '\n' then 1 else 0
  {
    if n == 2 { NoNewlines(a[..2]); }
  }

  lemma RepeatMore(c: char, n: nat)
    ensures Repeat(c, n + 1) == Repeat(c, n) + [c]
  {
  }

  // The loop over a block comment; the code view keeps its newlines.
  method BlockEnd(b: Buffers, text: string, start: nat) returns (j: nat)
    requires start + 2 <= |text| && "/*" <= text[start..]
    modifies b
    ensures j == start + 2 + BlockRun(text[start + 2..], 1) <= |text|
    ensures b.Shown(Code) == old(b.Shown(Code)) + Repeat('\n', Newlines(text[start..j]))
    ensures b.skel == old(b.skel) && b.kept == old(b.kept) && b.keptSkel == old(b.keptSkel)
  {
    hide Join, Newlines, Repeat, BlockRun;
    var depth: nat := 1;
    j := start + 2;
    NoNewlines(text[start..j]);
    EmptyRepeat(b.Shown(Code), '\n');
    while j < |text| && depth != 0
      invariant start + 2 <= j <= |text|
      invariant BlockRun(text[start + 2..], 1) == j - (start + 2) + BlockRun(text[j..], depth)
      invariant b.Shown(Code) == old(b.Shown(Code)) + Repeat('\n', Newlines(text[start..j]))
      invariant b.skel == old(b.skel) && b.kept == old(b.kept) && b.keptSkel == old(b.keptSkel)
    {
      ghost var from, was := j, depth;
      if "/*" <= text[j..] {
        depth, j := depth + 1, j + 2;
      } else if "*/" <= text[j..] {
        depth, j := depth - 1, j + 2;
      } else {
        if text[j] == '\n' {
          JoinAppend(b.code, "\n");
          b.code := b.code + ["\n"];
          RepeatMore('\n', Newlines(text[start..j]));
        }
        j := j + 1;
      }
      BlockTurn(text[from..], was, j - from, depth);
      assert text[from..][j - from..] == text[j..] && text[from..][..j - from] == text[from..j];
      assert text[start..j] == text[start..from] + text[from..j];
      NewlinesAppend(text[start..from], text[from..j]);
    }
    BlockStop(text[j..], depth);
  }

  lemma BlockStop(a: string, depth: nat)
    requires a == [] || depth == 0
    ensures BlockRun(a, depth) == 0
  {
  }

  lemma EmptyRepeat(shown: string, c: char)
    ensures shown + Repeat(c, 0) == shown
  {
  }

  // The string loop; `j` may step one past the end of the text.
  method StringEnd(text: string, start: nat) returns (end: nat, closed: bool)
    requires start < |text|
    ensures start + 1 <= end <= |text|
    ensures Body(end - (start + 1), closed) == StrBody(text[start + 1..])
  {
    var j := start + 1;
    while j < |text| && text[j] != '"'
      invariant start + 1 <= j <= |text| + 1
      invariant StrBody(text[start + 1..])
             == if j <= |text| then StrBody(text[j..]).Plus(j - (start + 1))
                else Body(|text| - (start + 1), false)
    {
      var from := j;
      j := j + if text[j] == '\\' then 2 else 1;
      assert j <= |text| ==> text[from..][j - from..] == text[j..];
    }
    closed := j < |text| && text[j] == '"';
    end := if closed then j + 1 else |text|;
  }

  // `text.find(closer, from)` and the end it gives.
  method RawEnd(text: string, from: nat, hashes: nat) returns (end: nat, closed: bool)
    requires from <= |text|
    ensures from <= end <= |text|
    ensures Body(end - from, closed) == RawBody(text[from..], hashes)
  {
    var found := from;
    while found < |text| && !(Closer(hashes) <= text[found..])
      invariant from <= found <= |text|
      invariant RawBody(text[from..], hashes) == RawBody(text[found..], hashes).Plus(found - from)
    {
      assert text[found..][1..] == text[found + 1..];
      found := found + 1;
    }
    closed := found < |text|;
    end := if closed then found + 1 + hashes else |text|;
  }

  lemma PlainIf(prev: char, a: string)
    requires a != []
    requires SpecialAt(a) ==> a[0] in "rb#" && (RawOpen(a).Some? ==> IsWord(prev))
    ensures Step(prev, a).kind == Plain
  {
  }

  // Plain code up to a special token, and a raw opener that is the end of a word.
  lemma PlainUpTo(text: string, i: nat, start: nat, k: nat)
    requires i <= start <= k <= |text|
    requires forall p :: i <= p < start ==> !SpecialAt(text[p..])
    requires k > start ==>
               && start > 0 && IsWord(text[start - 1]) && RawOpen(text[start..]).Some?
               && k == start + RawOpen(text[start..]).value.len - 1
    ensures forall v :: Render(v, PrevAt('\n', text, i), text[i..])
              == text[i..k] + Render(v, PrevAt('\n', text, k), text[k..])
    ensures DocSpans(PrevAt('\n', text, i), text[i..], i) == DocSpans(PrevAt('\n', text, k), text[k..], k)
  {
    hide Step, SpecialAt, RawOpen, Render, DocSpans, IsWord;
    var a, prev := text[i..], PrevAt('\n', text, i);
    forall p | 0 <= p < k - i ensures Step(PrevAt(prev, a, p), a[p..]).kind == Plain {
      assert a[p..] == text[i + p..];
      assert PrevAt(prev, a, p) == PrevAt('\n', text, i + p);
      PlainThere(text, start, i + p, k);
    }
    forall v ensures Render(v, prev, a) == text[i..k] + Render(v, PrevAt('\n', text, k), text[k..]) {
      PlainRun(v, prev, a, k - i, i);
      assert a[k - i..] == text[k..] && a[..k - i] == text[i..k];
    }
    PlainRun(Code, prev, a, k - i, i);
  }

  // The character at `q`, before the special token or inside the raw opener.
  lemma PlainThere(text: string, start: nat, q: nat, k: nat)
    requires q < k <= |text| && start <= k
    requires q < start ==> !SpecialAt(text[q..])
    requires k > start ==>
               && start > 0 && IsWord(text[start - 1]) && RawOpen(text[start..]).Some?
               && k == start + RawOpen(text[start..]).value.len - 1
    ensures Step(PrevAt('\n', text, q), text[q..]).kind == Plain
  {
    hide Step, RawOpen;
    if q >= start {
      InsideOpener(text[start..], q - start);
      assert text[start..][q - start..] == text[q..];
      assert q > start ==> text[start..][q - start - 1] == text[q - 1];
    }
    PlainIf(PrevAt('\n', text, q), text[q..]);
  }

  // A raw opener read after a word character is plain up to its quote.
  lemma InsideOpener(a: string, q: nat)
    requires RawOpen(a).Some? && q < RawOpen(a).value.len - 1
    ensures a[q] in "rb#"
    ensures q > 0 && RawOpen(a[q..]).Some? ==> a[q - 1] == 'b'
  {
  }

  method Lex(text: string) returns (source: RustSource)
    ensures source == Lexed(text)
  {
    var b := new Buffers(text);
    var docs: seq<Span> := [];
    var i := 0;
    assert text[0..] == text;
    while i < |text|
      invariant i <= |text| && b.text == text && fresh(b)
      invariant Caught(b, docs, text, i)
    {
      i, docs := LexOne(b, docs, text, i);
    }
    source := RustSource(Join(b.code), Join(b.skel), Join(b.kept), Join(b.keptSkel), docs);
    AtEnd(b, docs, text);
  }

  lemma AtEnd(b: Buffers, docs: seq<Span>, text: string)
    requires Caught(b, docs, text, |text|)
    ensures RustSource(Join(b.code), Join(b.skel), Join(b.kept), Join(b.keptSkel), docs) == Lexed(text)
  {
    hide Join, Step, Piece;
    forall v: View ensures b.Shown(v) == Render(v, '\n', text) {
      assert b.Shown(v) + Render(v, PrevAt('\n', text, |text|), text[|text|..]) == b.Shown(v);
    }
    assert b.Shown(Code) == Join(b.code) && b.Shown(Skeleton) == Join(b.skel);
    assert b.Shown(Kept) == Join(b.kept) && b.Shown(KeptSkeleton) == Join(b.keptSkel);
    assert DocSpans(PrevAt('\n', text, |text|), text[|text|..], |text|) == [];
  }

  // The views grow by `shown` and the spans by `found` while the scan goes from `i` to `k`.
  lemma Onward(before: View -> string, after: View -> string, shown: View -> string,
               docs0: seq<Span>, docs: seq<Span>, text: string, i: nat, k: nat)
    requires i <= k <= |text|
    requires forall v :: before(v) + Render(v, PrevAt('\n', text, i), text[i..]) == Render(v, '\n', text)
    requires docs0 + DocSpans(PrevAt('\n', text, i), text[i..], i) == DocSpans('\n', text, 0)
    requires forall v :: after(v) == before(v) + shown(v)
    requires forall v :: Render(v, PrevAt('\n', text, i), text[i..])
               == shown(v) + Render(v, PrevAt('\n', text, k), text[k..])
    requires docs0 + DocSpans(PrevAt('\n', text, i), text[i..], i)
          == docs + DocSpans(PrevAt('\n', text, k), text[k..], k)
    ensures forall v :: after(v) + Render(v, PrevAt('\n', text, k), text[k..]) == Render(v, '\n', text)
    ensures docs + DocSpans(PrevAt('\n', text, k), text[k..], k) == DocSpans('\n', text, 0)
  {
    hide Render, DocSpans;
    forall v ensures after(v) + Render(v, PrevAt('\n', text, k), text[k..]) == Render(v, '\n', text) {
      var rest := Render(v, PrevAt('\n', text, k), text[k..]);
      assert (before(v) + shown(v)) + rest == before(v) + (shown(v) + rest);
    }
  }

  ghost function Now(b: Buffers): (now: View -> string)
    reads b
    ensures forall v :: now(v) == b.Shown(v)
  {
    var code, skel, kept, keptSkel := Join(b.code), Join(b.skel), Join(b.kept), Join(b.keptSkel);
    (v: View) => match v case Code => code case Skeleton => skel case Kept => kept case KeptSkeleton => keptSkel
  }

  // One turn of the loop.
  method LexOne(b: Buffers, docs0: seq<Span>, text: string, i: nat)
    returns (next: nat, docs: seq<Span>)
    requires i < |text| && b.text == text
    requires Caught(b, docs0, text, i)
    modifies b
    ensures i < next <= |text|
    ensures Caught(b, docs, text, next)
  {
    hide Step, Piece, Render, DocSpans, RawOpen, Join, IsDoc;
    docs := docs0;
    ghost var before := Now(b);
    var start := FindSpecial(text, i);
    var a := text[start..];
    var next0 := if start == |text| || RawOpen(a).None? || start == 0 || !IsWord(text[start - 1]) then start
                 else start + RawOpen(a).value.len - 1;
    PlainUpTo(text, i, start, next0);
    b.Emit(text[i..next0]);
    Onward(before, Now(b), v => text[i..next0], docs, docs, text, i, next0);
    next := next0;
    if next0 == start && start < |text| {
      before := Now(b);
      TakeStep(text, start);
      next, docs := TakeToken(b, docs, text, start);
      ghost var s := Step(PrevAt('\n', text, start), a);
      assert docs0 + ((if IsDoc(s, a) then [Span(start, next)] else []) + DocSpans(PrevAt('\n', text, next), text[next..], next))
          == docs + DocSpans(PrevAt('\n', text, next), text[next..], next);
      Onward(before, Now(b), v => Piece(v, s, a), docs0, docs, text, start, next);
    }
  }

  // The token at `start`, into the buffers.
  method TakeToken(b: Buffers, docs0: seq<Span>, text: string, start: nat)
    returns (next: nat, docs: seq<Span>)
    requires start < |text| && b.text == text && SpecialAt(text[start..])
    requires RawOpen(text[start..]).Some? ==> start == 0 || !IsWord(text[start - 1])
    modifies b
    ensures var a := text[start..];
            var s := Step(PrevAt('\n', text, start), a);
            && next == start + s.len
            && docs == docs0 + (if IsDoc(s, a) then [Span(start, next)] else [])
            && forall v :: b.Shown(v) == old(b.Shown(v)) + Piece(v, s, a)
  {
    hide Piece, Step, RawOpen;
    docs := docs0;
    var a := text[start..];
    if "//" <= a || "/*" <= a {
      next, docs := TakeComment(b, docs, text, start);
    } else if RawOpen(a).Some? || a[0] == '"' {
      next := TakeLiteral(b, text, start);
    } else {
      next := TakeQuote(b, text, start);
    }
  }

  method TakeComment(b: Buffers, docs0: seq<Span>, text: string, start: nat)
    returns (next: nat, docs: seq<Span>)
    requires start < |text| && b.text == text && ("//" <= text[start..] || "/*" <= text[start..])
    modifies b
    ensures var a := text[start..];
            var s := Step(PrevAt('\n', text, start), a);
            && next == start + s.len
            && docs == docs0 + (if IsDoc(s, a) then [Span(start, next)] else [])
            && forall v :: b.Shown(v) == old(b.Shown(v)) + Piece(v, s, a)
  {
    hide BlockRun, LineRun, Spaces, Newlines, Join;
    docs := docs0;
    var a := text[start..];
    ghost var s := Step(PrevAt('\n', text, start), a);
    if "//" <= a {
      next := LineEnd(text, start);
      if "///" <= a && !("////" <= a) {
        docs := docs + [Span(start, next)];
      }
      assert a[..s.len] == text[start..next];
      b.BlankComment(start, next);
      assert b.Shown(Code) == old(b.Shown(Code)) + "";
    } else {
      next := BlockEnd(b, text, start);
      assert text[start + 2..] == a[2..] && text[start..next] == a[..s.len];
      ghost var code := b.Shown(Code);
      b.BlankComment(start, next);
      assert b.Shown(Code) == code;
    }
  }

  lemma LiteralStep(prev: char, a: string)
    requires a != [] && (a[0] == '"' || (RawOpen(a).Some? && !IsWord(prev)))
    ensures var s := Step(prev, a);
            if a[0] == '"' then
              var b := StrBody(a[1..]); s == Segment(Literal(1, if b.closed then 1 else 0), 1 + b.len)
            else
              var o := RawOpen(a).value;
              var b := RawBody(a[o.len..], o.hashes);
              s == Segment(Literal(o.len, if b.closed then 1 + o.hashes else 0), o.len + b.len)
  {
    hide RawBody, StrBody, Hashes, IsWord, BlockRun, LineRun, CharLen;
  }

  method TakeLiteral(b: Buffers, text: string, start: nat) returns (next: nat)
    requires start < |text| && b.text == text
    requires text[start] == '"' || RawOpen(text[start..]).Some?
    requires RawOpen(text[start..]).Some? ==> start == 0 || !IsWord(text[start - 1])
    modifies b
    ensures var a := text[start..];
            var s := Step(PrevAt('\n', text, start), a);
            && !s.kind.LineComment? && next == start + s.len
            && forall v :: b.Shown(v) == old(b.Shown(v)) + Piece(v, s, a)
  {
    hide Join, RawBody, StrBody, Spaces, Newlines, LiteralPiece, Repeat, Step, RawOpen;
    var a := text[start..];
    LiteralStep(PrevAt('\n', text, start), a);
    ghost var s := Step(PrevAt('\n', text, start), a);
    var closed;
    if a[0] == '"' {
      next, closed := StringEnd(text, start);
      assert text[start + 1..] == a[1..];
      assert text[start..next] == a[..s.len];
      b.BlankLiteral(start, next, 1, if closed then 1 else 0);
    } else {
      var o := RawOpen(a).value;
      next, closed := RawEnd(text, start + o.len, o.hashes);
      assert text[start + o.len..] == a[o.len..];
      assert text[start..next] == a[..s.len];
      b.BlankLiteral(start, next, o.len, if closed then 1 + o.hashes else 0);
    }
  }

  // Only the code view shows the replacement for a literal.
  lemma LiteralView(v: View, word: string, code: string, code': string, opener: nat, closer: nat)
    requires opener + closer <= |word|
    ensures LiteralPiece(Code, word, code', opener, closer) == code'
    ensures v != Code ==> LiteralPiece(v, word, code, opener, closer) == LiteralPiece(v, word, code', opener, closer)
  {
  }

  method TakeQuote(b: Buffers, text: string, start: nat) returns (next: nat)
    requires start < |text| && b.text == text && text[start] == '\''
    modifies b
    ensures var a := text[start..];
            var s := Step(PrevAt('\n', text, start), a);
            && !s.kind.LineComment? && next == start + s.len
            && forall v :: b.Shown(v) == old(b.Shown(v)) + Piece(v, s, a)
  {
    hide Join, CharLen, Spaces, Newlines, Repeat, LiteralPiece, RawOpen;
    var a := text[start..];
    ghost var s := Step(PrevAt('\n', text, start), a);
    var ch := CharLen(a);
    if ch.Some? {
      next := start + ch.value;
      ghost var code := b.code;
      b.BlankLiteral(start, next, 1, 1);
      ghost var blank := "\"\"" + Repeat('\n', Newlines(text[start..next]));
      b.code := b.code[|b.code| - 1 := "' '"];
      assert b.code == code + ["' '"];
      JoinAppend(code, "' '");
      assert text[start..next] == a[..s.len];
      forall v { LiteralView(v, a[..s.len], blank, "' '", 1, 1); }
    } else {
      b.Emit("'");
      assert a[..1] == "'";
      next := start + 1;
    }
  }
}
