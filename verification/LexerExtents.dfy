/**
 * Which texts are tokens of the lexer, said without its scanners: what a character literal is,
 * which quote closes a string, where a raw literal and a nested comment end.
 */
module LexerExtents {
  import opened Prelude
  import opened RustLexer

  /* ---- Characters ---- */

  predicate Hex(c: char) { '0' <= c <= '9' || 'A' <= c <= 'F' || 'a' <= c <= 'f' }

  // A letter, a digit or an underscore.
  predicate Wordlike(c: char) {
    || '0' <= c <= '9' || c == '_' || 'A' <= c <= 'Z' || 'a' <= c <= 'z'
    || (c > '\U{7f}' && c in WIDE_ALNUM)
  }

  /* ---- Character literals ---- */

  // One character, or an escape: one character, two hexadecimal digits after `x`, or one to
  // six of them in braces after `u`.
  predicate IsCharLiteral(w: string) {
    || (|w| == 3 && w[0] == '\'' && w[1] != '\'' && w[1] != '\\' && w[1] != '\n' && w[2] == '\'')
    || (|w| == 4 && w[0] == '\'' && w[1] == '\\' && w[2] != '\n' && w[3] == '\'')
    || (|w| == 6 && w[0] == '\'' && w[1] == '\\' && w[2] == 'x' && Hex(w[3]) && Hex(w[4]) && w[5] == '\'')
    || (&& 7 <= |w| <= 12 && w[0] == '\'' && w[1] == '\\' && w[2] == 'u' && w[3] == '{'
        && (forall i :: 4 <= i < |w| - 2 ==> Hex(w[i]))
        && w[|w| - 2] == '}' && w[|w| - 1] == '\'')
  }

  lemma {:induction false} HexRunIs(a: string, h: nat)
    requires h < |a| && (forall i :: 0 <= i < h ==> Hex(a[i])) && !Hex(a[h])
    ensures HexRun(a) == h
  {
    if h > 0 { HexRunIs(a[1..], h - 1); }
  }

  lemma {:induction false} HexRunAll(a: string)
    ensures forall i :: 0 <= i < HexRun(a) ==> Hex(a[i])
  {
    if a != [] && IsHex(a[0]) {
      HexRunAll(a[1..]);
      forall i | 0 <= i < HexRun(a) ensures Hex(a[i]) {
        if i > 0 { assert a[i] == a[1..][i - 1]; }
      }
    }
  }

  lemma CharRead(a: string)
    requires CharLen(a).Some?
    ensures IsCharLiteral(a[..CharLen(a).value])
  {
    hide HexRun;
    if a[1] == '\\' && "u{" <= a[2..] {
      var digits := a[2..][2..];
      HexRunAll(digits);
      var h, w := HexRun(digits), a[..CharLen(a).value];
      assert digits == a[4..];
      forall i | 4 <= i < |w| - 2 ensures Hex(w[i]) || CharLen(a).value == 4 {
        if CharLen(a).value != 4 { assert digits[i - 4] == w[i]; }
      }
    }
  }

  lemma CharWritten(a: string, n: nat)
    requires n <= |a| && IsCharLiteral(a[..n])
    ensures CharLen(a) == Some(n)
  {
    hide HexRun;
    var w := a[..n];
    assert forall i :: 0 <= i < n ==> w[i] == a[i];
    if n >= 7 {
      var digits := a[2..][2..];
      forall i | 0 <= i < n - 6 ensures Hex(digits[i]) { assert digits[i] == w[i + 4]; }
      assert digits[n - 6] == w[n - 2] == '}' && digits[n - 5] == w[n - 1] == '\'';
      HexRunIs(digits, n - 6);
      assert a[2..][2 + (n - 6)..] == digits[n - 6..];
    }
  }

  /* ---- Strings ---- */

  // Exactly `r` backslashes stand right before offset `p`.
  ghost predicate RunBefore(a: string, p: nat, r: nat) {
    r < p <= |a| && a[p - r - 1] != '\\' && forall i :: p - r <= i < p ==> a[i] == '\\'
  }

  ghost predicate EvenBefore(a: string, p: nat, r: nat) { r % 2 == 0 && RunBefore(a, p, r) }

  ghost predicate Shown(a: string, p: nat) { exists r: nat :: EvenBefore(a, p, r) }

  // A quote that no backslash hides.
  ghost predicate Closes(a: string, p: nat) {
    p < |a| && a[p] == '"' && Shown(a, p)
  }

  // The string opened by the first character ends after its first closing quote.
  ghost predicate StringExtent(a: string, n: nat, closer: nat) {
    || (closer == 1 && 2 <= n <= |a| && Closes(a, n - 1) && forall q :: 1 <= q < n - 1 ==> !Closes(a, q))
    || (closer == 0 && n == |a| && forall q :: 1 <= q < |a| ==> !Closes(a, q))
  }

  lemma RunOnce(a: string, p: nat, r: nat, r': nat)
    requires RunBefore(a, p, r) && RunBefore(a, p, r')
    ensures r == r'
  {
  }

  lemma OddBefore(a: string, p: nat, r: nat)
    requires EvenBefore(a, p, r) && p < |a| && a[p] == '\\'
    ensures !Shown(a, p + 1)
  {
    var q := p + 1;
    assert RunBefore(a, q, r + 1);
    hide RunBefore;
    forall r': nat ensures !EvenBefore(a, q, r') {
      if RunBefore(a, q, r') { RunOnce(a, q, r + 1, r'); }
    }
  }

  lemma {:induction false} StringScan(a: string, i: nat, r: nat)
    requires 1 <= i <= |a| && EvenBefore(a, i, r)
    ensures var b := StrBody(a[i..]);
            && (b.closed ==> Closes(a, i + b.len - 1) && forall q :: i <= q < i + b.len - 1 ==> !Closes(a, q))
            && (!b.closed ==> forall q :: i <= q < |a| ==> !Closes(a, q))
    decreases |a| - i
  {
    hide Shown, EvenBefore, StrBody;
    StrNext(a, i);
    if i < |a| {
      if a[i] == '"' {
        QuoteShown(a, i, r);
      } else if a[i] == '\\' {
        OddBefore(a, i, r);
        if i + 1 < |a| {
          EvenAfterPair(a, i, r);
          StringScan(a, i + 2, if a[i + 1] == '\\' then r + 2 else 0);
        }
      } else {
        EvenAfterOther(a, i);
        StringScan(a, i + 1, 0);
      }
    }
  }

  lemma StrNext(a: string, i: nat)
    requires i <= |a|
    ensures var b := StrBody(a[i..]);
            if i == |a| then b == Body(0, false)
            else if a[i] == '"' then b == Body(1, true)
            else if a[i] != '\\' then b == StrBody(a[i + 1..]).Plus(1)
            else if i + 1 == |a| then b == Body(1, false)
            else b == StrBody(a[i + 2..]).Plus(2)
  {
    if i < |a| { assert a[i..][1..] == a[i + 1..]; }
    if i + 1 < |a| { assert a[i..][2..] == a[i + 2..]; }
  }

  lemma QuoteShown(a: string, i: nat, r: nat)
    requires i < |a| && a[i] == '"' && EvenBefore(a, i, r)
    ensures Closes(a, i)
  {
  }

  lemma EvenAfterPair(a: string, i: nat, r: nat)
    requires i + 1 < |a| && EvenBefore(a, i, r) && a[i] == '\\'
    ensures EvenBefore(a, i + 2, if a[i + 1] == '\\' then r + 2 else 0)
  {
  }

  lemma EvenAfterOther(a: string, i: nat)
    requires i < |a| && a[i] != '\\'
    ensures EvenBefore(a, i + 1, 0)
  {
  }

  lemma StringRead(a: string)
    requires a != [] && a[0] == '"'
    ensures var b := StrBody(a[1..]); StringExtent(a, 1 + b.len, if b.closed then 1 else 0)
  {
    hide StrBody, Closes;
    EvenAfterOther(a, 0);
    StringScan(a, 1, 0);
  }

  lemma StringOnce(a: string, n: nat, closer: nat, n': nat, closer': nat)
    requires StringExtent(a, n, closer) && StringExtent(a, n', closer')
    ensures n == n' && closer == closer'
  {
    hide Closes;
  }

  /* ---- Raw literals ---- */

  // An optional `b` (`k` of it), an `r`, `h` hashes and a quote.
  ghost predicate RawOpens(a: string, k: nat, h: nat) {
    && k <= 1 && k + h + 2 <= |a| && (k == 1 ==> a[0] == 'b') && a[k] == 'r'
    && (forall i :: k + 1 <= i < k + 1 + h ==> a[i] == '#')
    && a[k + 1 + h] == '"'
  }

  // A quote and `h` hashes at offset `p`.
  ghost predicate RawCloses(a: string, p: nat, h: nat) {
    p + h < |a| && a[p] == '"' && forall i :: p + 1 <= i < p + 1 + h ==> a[i] == '#'
  }

  ghost predicate RawExtent(a: string, from: nat, h: nat, n: nat, closer: nat) {
    || (&& closer == 1 + h && from + 1 + h <= n && RawCloses(a, n - 1 - h, h)
        && forall q :: from <= q < n - 1 - h ==> !RawCloses(a, q, h))
    || (closer == 0 && n == |a| && forall q :: from <= q ==> !RawCloses(a, q, h))
  }

  lemma {:induction false} HashesAre(a: string, h: nat)
    requires h <= |a| && (forall i :: 0 <= i < h ==> a[i] == '#') && (h < |a| ==> a[h] != '#')
    ensures Hashes(a) == h
  {
    if h > 0 { HashesAre(a[1..], h - 1); }
  }

  lemma RawRead(a: string)
    requires RawOpen(a).Some?
    ensures var o := RawOpen(a).value; RawOpens(a, o.len - o.hashes - 2, o.hashes)
  {
    var o := RawOpen(a).value;
    var k := o.len - o.hashes - 2;
    var rest := a[k + 1..];
    forall i | k + 1 <= i < k + 1 + o.hashes ensures a[i] == '#' {
      assert rest[i - k - 1] == a[i];
    }
  }

  lemma RawWritten(a: string, k: nat, h: nat)
    requires RawOpens(a, k, h)
    ensures RawOpen(a) == Some(Opener(k + h + 2, h))
  {
    hide Hashes;
    var rest := a[k + 1..];
    assert forall i :: 0 <= i < h ==> rest[i] == a[k + 1 + i];
    assert rest[h] == a[k + 1 + h];
    HashesAre(rest, h);
  }

  lemma CloserAt(x: string, h: nat)
    ensures Closer(h) <= x <==> RawCloses(x, 0, h)
  {
    var c := Closer(h);
    assert |c| == 1 + h && c[0] == '"' && forall i :: 1 <= i < 1 + h ==> c[i] == '#';
    if RawCloses(x, 0, h) {
      assert forall i :: 0 <= i < 1 + h ==> x[i] == c[i];
      assert x[..1 + h] == c;
    }
    if c <= x {
      assert forall i :: 0 <= i < 1 + h ==> x[i] == c[i];
    }
  }

  lemma ClosesLater(a: string, i: nat, p: nat, h: nat)
    requires i <= |a|
    ensures RawCloses(a[i..], p, h) <==> RawCloses(a, i + p, h)
  {
    var x := a[i..];
    if RawCloses(a, i + p, h) {
      assert forall j :: p + 1 <= j < p + 1 + h ==> x[j] == a[i + j];
    }
    if RawCloses(x, p, h) {
      forall j | i + p + 1 <= j < i + p + 1 + h ensures a[j] == '#' { assert x[j - i] == '#'; }
    }
  }

  lemma {:induction false} RawScan(a: string, from: nat, h: nat)
    requires from <= |a|
    ensures var b := RawBody(a[from..], h); RawExtent(a, from, h, from + b.len, if b.closed then 1 + h else 0)
    decreases |a| - from
  {
    hide RawCloses, Closer;
    var x := a[from..];
    CloserAt(x, h);
    ClosesLater(a, from, 0, h);
    if x == [] {
      forall q | from <= q ensures !RawCloses(a, q, h) { NoClose(a, q, h); }
    } else if !(Closer(h) <= x) {
      RawScan(a, from + 1, h);
      assert x[1..] == a[from + 1..];
    } else {
      CloserLength(h);
    }
  }

  lemma NoClose(a: string, q: nat, h: nat)
    requires |a| <= q
    ensures !RawCloses(a, q, h)
  {
  }

  lemma CloserLength(h: nat)
    ensures |Closer(h)| == 1 + h
  {
  }

  /* ---- Comments ---- */

  ghost predicate LineExtent(a: string, n: nat) {
    n <= |a| && (forall i :: 0 <= i < n ==> a[i] != '\n') && (n < |a| ==> a[n] == '\n')
  }

  lemma {:induction false} LineRead(a: string)
    ensures LineExtent(a, LineRun(a))
  {
    if a != [] && a[0] != '\n' {
      LineRead(a[1..]);
      forall i | 0 <= i < LineRun(a) ensures a[i] != '\n' {
        if i > 0 { assert a[i] == a[1..][i - 1]; }
      }
    }
  }

  predicate At(a: string, c: nat, x: char, y: char) { c + 1 < |a| && a[c] == x && a[c + 1] == y }

  // A place in a comment, and how many comments are open there.
  datatype Mark = Mark(at: nat, depth: nat)

  // From one mark to the next: an opener, a closer, or one character that starts neither.
  predicate Turn(a: string, m: Mark, next: Mark) {
    m.depth > 0 && m.at < |a| && next == NextMark(a, m)
  }

  function NextMark(a: string, m: Mark): Mark
    requires m.depth > 0
  {
    if At(a, m.at, '/', '*') then Mark(m.at + 2, m.depth + 1)
    else if At(a, m.at, '*', '/') then Mark(m.at + 2, m.depth - 1)
    else Mark(m.at + 1, m.depth)
  }

  ghost predicate Walk(a: string, marks: seq<Mark>) {
    marks != [] && forall i :: 0 <= i < |marks| - 1 ==> Turn(a, marks[i], marks[i + 1])
  }

  ghost predicate Ends(a: string, m: Mark) { m.depth == 0 || m.at == |a| }

  // The comment opened by the first two characters ends where no comment is open any more, or
  // with the text.
  ghost predicate BlockExtent(a: string, n: nat) {
    exists marks: seq<Mark> ::
      Walk(a, marks) && marks[0] == Mark(2, 1) && Ends(a, marks[|marks| - 1]) && marks[|marks| - 1].at == n
  }

  lemma {:induction false} BlockWalk(a: string, m: Mark) returns (marks: seq<Mark>)
    requires m.at <= |a|
    ensures Walk(a, marks) && marks[0] == m && Ends(a, marks[|marks| - 1])
    ensures marks[|marks| - 1].at == m.at + BlockRun(a[m.at..], m.depth)
    decreases |a| - m.at
  {
    hide BlockRun, NextMark;
    BlockNext(a, m);
    if m.depth == 0 || m.at == |a| {
      marks := [m];
    } else {
      var rest := BlockWalk(a, NextMark(a, m));
      marks := [m] + rest;
      assert forall i :: 0 <= i < |rest| ==> marks[i + 1] == rest[i];
    }
  }

  lemma BlockNext(a: string, m: Mark)
    requires m.at <= |a|
    ensures m.depth == 0 || m.at == |a| ==> BlockRun(a[m.at..], m.depth) == 0
    ensures m.depth > 0 && m.at < |a| ==>
              var next := NextMark(a, m);
              && m.at < next.at <= |a|
              && BlockRun(a[m.at..], m.depth) == next.at - m.at + BlockRun(a[next.at..], next.depth)
  {
    StartsAre(a, m.at);
    if m.depth > 0 && m.at < |a| {
      var next := NextMark(a, m);
      assert a[m.at..][next.at - m.at..] == a[next.at..];
    }
  }

  lemma StartsAre(a: string, c: nat)
    requires c <= |a|
    ensures "/*" <= a[c..] <==> At(a, c, '/', '*')
    ensures "*/" <= a[c..] <==> At(a, c, '*', '/')
  {
    var x := a[c..];
    if At(a, c, '/', '*') { assert x[..2] == "/*"; }
    if At(a, c, '*', '/') { assert x[..2] == "*/"; }
    if "/*" <= x { assert x[0] == "/*"[0] && x[1] == "/*"[1]; }
    if "*/" <= x { assert x[0] == "*/"[0] && x[1] == "*/"[1]; }
  }

  // Two walks from one place go the same way.
  lemma {:induction false} WalksAgree(a: string, xs: seq<Mark>, ys: seq<Mark>)
    requires Walk(a, xs) && Walk(a, ys) && xs[0] == ys[0]
    requires Ends(a, xs[|xs| - 1]) && Ends(a, ys[|ys| - 1])
    ensures xs == ys
  {
    hide Walk, Ends, Turn;
    WalkNotEmpty(a, xs);
    WalkNotEmpty(a, ys);
    if Ends(a, xs[0]) {
      EndsHere(a, xs);
      EndsHere(a, ys);
    } else {
      TurnsOnce(a, xs, ys);
      WalkRest(a, xs);
      WalkRest(a, ys);
      WalksAgree(a, xs[1..], ys[1..]);
      assert xs == [xs[0]] + xs[1..] && ys == [ys[0]] + ys[1..];
    }
  }

  lemma WalkNotEmpty(a: string, xs: seq<Mark>)
    requires Walk(a, xs)
    ensures xs != []
  {
  }

  lemma EndsHere(a: string, xs: seq<Mark>)
    requires Walk(a, xs) && Ends(a, xs[0])
    ensures |xs| == 1
  {
    if |xs| > 1 { FirstTurn(a, xs); }
  }

  lemma FirstTurn(a: string, xs: seq<Mark>)
    requires Walk(a, xs) && |xs| > 1
    ensures Turn(a, xs[0], xs[1])
  {
  }

  lemma TurnsOnce(a: string, xs: seq<Mark>, ys: seq<Mark>)
    requires Walk(a, xs) && Walk(a, ys) && xs[0] == ys[0] && |xs| > 1 && |ys| > 1
    ensures xs[1] == ys[1]
  {
    assert Turn(a, xs[0], xs[1]) && Turn(a, ys[0], ys[1]);
  }

  lemma WalkRest(a: string, xs: seq<Mark>)
    requires Walk(a, xs) && |xs| > 1
    ensures Walk(a, xs[1..])
  {
    hide Turn;
    var ys := xs[1..];
    forall i | 0 <= i < |ys| - 1 ensures Turn(a, ys[i], ys[i + 1]) {
      assert Turn(a, xs[i + 1], xs[i + 2]);
    }
  }

  lemma BlockRead(a: string)
    requires |a| >= 2
    ensures BlockExtent(a, 2 + BlockRun(a[2..], 1))
  {
    hide BlockRun;
    var marks := BlockWalk(a, Mark(2, 1));
  }

  lemma BlockOnce(a: string, n: nat, n': nat)
    requires BlockExtent(a, n) && BlockExtent(a, n')
    ensures n == n'
  {
    hide Turn, Ends;
    var xs: seq<Mark> :| Walk(a, xs) && xs[0] == Mark(2, 1) && Ends(a, xs[|xs| - 1]) && xs[|xs| - 1].at == n;
    var ys: seq<Mark> :| Walk(a, ys) && ys[0] == Mark(2, 1) && Ends(a, ys[|ys| - 1]) && ys[|ys| - 1].at == n';
    WalksAgree(a, xs, ys);
  }

  /* ---- The token at the front of a text ---- */

  ghost predicate RawHere(a: string) { exists k: nat, h: nat :: RawOpens(a, k, h) }

  ghost predicate CharHere(a: string) { exists n: nat :: n <= |a| && IsCharLiteral(a[..n]) }

  ghost predicate RawBy(a: string, s: Segment, k: nat, h: nat) {
    && RawOpens(a, k, h) && s.kind.Literal? && s.kind.opener == k + h + 2
    && RawExtent(a, k + h + 2, h, s.len, s.kind.closer)
  }

  ghost predicate RawSegment(a: string, s: Segment) { exists k: nat, h: nat :: RawBy(a, s, k, h) }

  // What token starts a text, after the character `prev`.
  ghost predicate Extent(prev: char, a: string, s: Segment)
    requires a != []
  {
    if At(a, 0, '/', '/') then s.kind == LineComment && LineExtent(a, s.len)
    else if At(a, 0, '/', '*') then s.kind == BlockComment && BlockExtent(a, s.len)
    else if RawHere(a) && !Wordlike(prev) then RawSegment(a, s)
    else if a[0] == '"' then s.kind.Literal? && s.kind.opener == 1 && StringExtent(a, s.len, s.kind.closer)
    else if CharHere(a) then s.kind == Chr && s.len <= |a| && IsCharLiteral(a[..s.len])
    else s == Segment(Plain, 1)
  }

  lemma SlashesAre(a: string)
    ensures "//" <= a <==> At(a, 0, '/', '/')
    ensures "/*" <= a <==> At(a, 0, '/', '*')
  {
    if At(a, 0, '/', '/') { assert a[..2] == "//"; }
    if At(a, 0, '/', '*') { assert a[..2] == "/*"; }
    if "//" <= a { assert a[0] == "//"[0] && a[1] == "//"[1]; }
    if "/*" <= a { assert a[0] == "/*"[0] && a[1] == "/*"[1]; }
  }

  lemma RawMeans(a: string)
    ensures RawOpen(a).Some? <==> RawHere(a)
    ensures RawOpen(a).Some? ==>
              var o := RawOpen(a).value;
              RawOpens(a, o.len - o.hashes - 2, o.hashes)
  {
    hide RawOpen, RawOpens;
    if RawOpen(a).Some? { RawRead(a); }
    if k: nat, h: nat :| RawOpens(a, k, h) { RawWritten(a, k, h); }
  }

  lemma CharMeans(a: string)
    ensures CharLen(a).Some? <==> CharHere(a)
    ensures CharLen(a).Some? ==> IsCharLiteral(a[..CharLen(a).value])
  {
    hide CharLen, IsCharLiteral;
    if CharLen(a).Some? { CharRead(a); }
    if n: nat :| n <= |a| && IsCharLiteral(a[..n]) { CharWritten(a, n); }
  }

  lemma StepRead(prev: char, a: string)
    requires a != []
    ensures Extent(prev, a, Step(prev, a))
  {
    hide LineRun, BlockRun, RawOpen, RawBody, StrBody, CharLen, RawHere, CharHere, RawOpens, RawExtent, StringExtent,
         BlockExtent, LineExtent, IsCharLiteral;
    SlashesAre(a);
    RawMeans(a);
    CharMeans(a);
    LineRead(a);
    if |a| >= 2 { BlockRead(a); }
    if RawOpen(a).Some? {
      var o := RawOpen(a).value;
      RawScan(a, o.len, o.hashes);
      assert !IsWord(prev) ==> RawBy(a, Step(prev, a), o.len - o.hashes - 2, o.hashes);
    }
    if a[0] == '"' { StringRead(a); }
  }

  lemma RawSegmentOnce(a: string, s: Segment, t: Segment)
    requires RawSegment(a, s) && RawSegment(a, t)
    ensures s == t
  {
    hide RawOpens;
    var k: nat, h: nat :| RawBy(a, s, k, h);
    var k': nat, h': nat :| RawBy(a, t, k', h');
    RawWritten(a, k, h);
    RawWritten(a, k', h');
    RawOnce(a, k + h + 2, h, s.len, s.kind.closer, t.len, t.kind.closer);
  }

  lemma RawOnce(a: string, from: nat, h: nat, n: nat, c: nat, n': nat, c': nat)
    requires RawExtent(a, from, h, n, c) && RawExtent(a, from, h, n', c')
    ensures n == n' && c == c'
  {
    hide RawCloses;
    if c == 1 + h { assert RawCloses(a, n - 1 - h, h); }
    if c' == 1 + h { assert RawCloses(a, n' - 1 - h, h); }
  }

  lemma ExtentOnce(prev: char, a: string, s: Segment, t: Segment)
    requires a != [] && Extent(prev, a, s) && Extent(prev, a, t)
    ensures s == t
  {
    hide RawHere, CharHere, RawSegment, StringExtent, BlockExtent, IsCharLiteral, Wordlike;
    if At(a, 0, '/', '/') {
    } else if At(a, 0, '/', '*') {
      BlockOnce(a, s.len, t.len);
    } else if RawHere(a) && !Wordlike(prev) {
      RawSegmentOnce(a, s, t);
    } else if a[0] == '"' {
      StringOnce(a, s.len, s.kind.closer, t.len, t.kind.closer);
    } else if CharHere(a) {
      CharWritten(a, s.len);
      CharWritten(a, t.len);
    }
  }

  /** The scanner's token is the one the text starts with, and no other. */
  lemma StepMeans(prev: char, a: string, s: Segment)
    requires a != []
    ensures s == Step(prev, a) <==> Extent(prev, a, s)
  {
    hide Step, Extent;
    StepRead(prev, a);
    if Extent(prev, a, s) { ExtentOnce(prev, a, s, Step(prev, a)); }
  }
}
