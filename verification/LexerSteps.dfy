/** A token of the lexer depends only on its own characters. */
module LexerSteps {
  import opened RustLexer

  lemma {:induction false} LineRunPrefix(a: string, b: string)
    requires LineRun(a) <= |b| && b[..LineRun(a)] == a[..LineRun(a)]
    requires LineRun(a) < |b| ==> b[LineRun(a)] == '\n'
    ensures LineRun(b) == LineRun(a)
  {
    if LineRun(a) > 0 {
      assert b[0] == a[0];
      assert b[1..][..LineRun(a) - 1] == b[..LineRun(a)][1..] == a[1..][..LineRun(a) - 1];
      LineRunPrefix(a[1..], b[1..]);
    }
  }

  lemma TailPrefix(a: string, b: string, n: nat, k: nat)
    requires k <= n <= |a| && n <= |b| && b[..n] == a[..n]
    ensures b[k..][..n - k] == a[k..][..n - k]
  {
    assert b[k..][..n - k] == b[..n][k..];
    assert a[k..][..n - k] == a[..n][k..];
  }

  lemma {:induction false} BlockRunPrefix(a: string, b: string, depth: nat)
    requires BlockRun(a, depth) <= |b| && b[..BlockRun(a, depth)] == a[..BlockRun(a, depth)]
    requires BlockRun(a, depth) == |a| ==> b == a
    ensures BlockRun(b, depth) == BlockRun(a, depth)
  {
    var n := BlockRun(a, depth);
    if depth > 0 && a != [] && n < |a| {
      assert b[0] == b[..n][0] == a[..n][0] == a[0];
      assert n > 1 ==> b[1] == b[..n][1] == a[..n][1] == a[1];
      var k := if "/*" <= a || "*/" <= a then 2 else 1;
      TailPrefix(a, b, n, k);
      var deeper := if "/*" <= a then depth + 1 else if "*/" <= a then depth - 1 else depth;
      if n == 1 { BlockStopsShort(a[1..], depth); assert false; }
      BlockRunPrefix(a[k..], b[k..], deeper);
    }
  }

  // A comment that is still open reads at least one character more.
  lemma BlockStopsShort(a: string, depth: nat)
    requires a != [] && depth > 0
    ensures BlockRun(a, depth) > 0
  {
  }

  lemma {:induction false} StrBodyPrefix(a: string, b: string)
    requires StrBody(a).len <= |b| && b[..StrBody(a).len] == a[..StrBody(a).len]
    requires StrBody(a).closed
    ensures StrBody(b) == StrBody(a)
  {
    var n := StrBody(a).len;
    assert b[0] == b[..n][0] == a[0];
    if a[0] != '"' {
      var k := if a[0] == '\\' then 2 else 1;
      TailPrefix(a, b, n, k);
      StrBodyPrefix(a[k..], b[k..]);
    }
  }

  lemma {:induction false} RawBodyPrefix(a: string, b: string, hashes: nat)
    requires RawBody(a, hashes).len <= |b| && b[..RawBody(a, hashes).len] == a[..RawBody(a, hashes).len]
    requires RawBody(a, hashes).closed
    ensures RawBody(b, hashes) == RawBody(a, hashes)
  {
    var n := RawBody(a, hashes).len;
    SamePrefix(Closer(hashes), a, b, n);
    hide Closer;
    if !(Closer(hashes) <= a) {
      TailPrefix(a, b, n, 1);
      RawBodyPrefix(a[1..], b[1..], hashes);
    }
  }

  lemma SamePrefix(c: string, a: string, b: string, n: nat)
    requires |c| <= n <= |a| && n <= |b| && b[..n] == a[..n]
    ensures c <= a <==> c <= b
  {
  }

  lemma {:induction false} HashesPrefix(a: string, b: string)
    requires Hashes(a) < |a| && Hashes(a) < |b| && b[..Hashes(a) + 1] == a[..Hashes(a) + 1]
    ensures Hashes(b) == Hashes(a)
  {
  }

  lemma RawOpenPrefix(a: string, b: string)
    requires RawOpen(a).Some? && RawOpen(a).value.len <= |b|
    requires b[..RawOpen(a).value.len] == a[..RawOpen(a).value.len]
    ensures RawOpen(b) == RawOpen(a)
  {
    hide Hashes;
    var n := RawOpen(a).value.len;
    assert b[0] == b[..n][0] == a[..n][0] == a[0] && b[1] == b[..n][1] == a[..n][1] == a[1];
    assert b[n - 1] == b[..n][n - 1] == a[..n][n - 1] == a[n - 1];
    var r := if "b" <= a then 1 else 0;
    TailPrefix(a, b, n, r + 1);
    HashesPrefix(a[r + 1..], b[r + 1..]);
  }

  lemma {:induction false} HexRunPrefix(a: string, b: string)
    requires HexRun(a) < |a| && HexRun(a) < |b| && b[..HexRun(a) + 1] == a[..HexRun(a) + 1]
    ensures HexRun(b) == HexRun(a)
  {
    assert b[0] == b[..HexRun(a) + 1][0] == a[0];
    if IsHex(a[0]) {
      TailPrefix(a, b, HexRun(a) + 1, 1);
      HexRunPrefix(a[1..], b[1..]);
    }
  }

  lemma EscapePrefix(a: string, b: string)
    requires EscapeLen(a).Some? && EscapeLen(a).value + 1 <= |b|
    requires b[..EscapeLen(a).value + 1] == a[..EscapeLen(a).value + 1]
    ensures EscapeLen(b) == EscapeLen(a)
  {
    var n := EscapeLen(a).value + 1;
    assert forall i :: 0 <= i < n ==> b[i] == b[..n][i] == a[..n][i] == a[i];
    if n > 4 || (n == 4 && a[0] != 'x') {
      var h := HexRun(a[2..]);
      assert a[2..][h] == '}';
      TailPrefix(a, b, n, 2);
      assert b[2..][..h + 1] == b[2..][..n - 2][..h + 1] == a[2..][..n - 2][..h + 1] == a[2..][..h + 1];
      HexRunPrefix(a[2..], b[2..]);
      assert b[2 + h..][..2] == [b[2 + h], b[3 + h]] == "}'";
    }
  }

  lemma CharLenPrefix(a: string, b: string)
    requires CharLen(a).Some? && CharLen(a).value <= |b|
    requires b[..CharLen(a).value] == a[..CharLen(a).value]
    ensures CharLen(b) == CharLen(a)
  {
    hide EscapeLen;
    var n := CharLen(a).value;
    assert b[0] == b[..n][0] && b[1] == b[..n][1] && b[2] == b[..n][2];
    if a[1] == '\\' {
      TailPrefix(a, b, n, 2);
      EscapePrefix(a[2..], b[2..]);
    }
  }

  // `prev` and `prev'` decide the same way whether a raw opener at the front of `a` is one.
  predicate SamePrev(prev: char, prev': char, a: string) {
    a == [] || a[0] == '\n' || IsWord(prev) == IsWord(prev')
  }

  /** Reading `b`, which starts with the token that `a` starts with, gives that token. */
  lemma StepPrefix(prev: char, prev': char, a: string, b: string)
    requires a != [] && SamePrev(prev, prev', a)
    requires var s := Step(prev, a);
             && s.kind != Plain && s.len <= |b| && b[..s.len] == a[..s.len]
             && (s.len == |a| ==> b == a)
             && (s.kind.LineComment? && s.len < |b| ==> b[s.len] == '\n')
    ensures b != [] && Step(prev', b) == Step(prev, a)
  {
    hide RawOpen, RawBody, StrBody, BlockRun, LineRun, CharLen;
    var s := Step(prev, a);
    LineRunStop(a);
    assert b[0] == b[..s.len][0] == a[0];
    assert s.len >= 2 ==> b[1] == b[..s.len][1] == a[1];
    if s.len < |a| {
      if "//" <= a {
        LineRunPrefix(a, b);
      } else if "/*" <= a {
        TailPrefix(a, b, s.len, 2);
        assert BlockRun(a[2..], 1) == s.len - 2 < |a[2..]|;
        BlockRunPrefix(a[2..], b[2..], 1);
      } else if RawOpen(a).Some? && !IsWord(prev) {
        RawPrefix(a, b, s.len);
      } else if a[0] == '"' {
        TailPrefix(a, b, s.len, 1);
        StrBodyPrefix(a[1..], b[1..]);
      } else {
        CharLenPrefix(a, b);
      }
    }
  }

  lemma RawPrefix(a: string, b: string, n: nat)
    requires RawOpen(a).Some? && n <= |b| && n < |a| && b[..n] == a[..n]
    requires var o := RawOpen(a).value; n == o.len + RawBody(a[o.len..], o.hashes).len
    ensures RawOpen(b) == RawOpen(a)
    ensures var o := RawOpen(a).value; RawBody(b[o.len..], o.hashes) == RawBody(a[o.len..], o.hashes)
  {
    hide RawOpen, RawBody;
    var o := RawOpen(a).value;
    assert b[..o.len] == b[..n][..o.len] == a[..o.len];
    RawOpenPrefix(a, b);
    TailPrefix(a, b, n, o.len);
    RawBodyPrefix(a[o.len..], b[o.len..], o.hashes);
  }

  // How a token ends: in the middle of the text only after its closing character.
  lemma StepEnds(prev: char, a: string)
    requires a != [] && Step(prev, a).kind != Plain
    ensures var s := Step(prev, a);
            || s.len == |a|
            || (if s.kind.LineComment? then a[s.len] == '\n' else a[s.len - 1] in "/\"#'")
    ensures Step(prev, a).len == |a| || Step(prev, a).len >= 2
  {
    hide RawOpen, StrBody, BlockRun, LineRun, CharLen;
    var s := Step(prev, a);
    if "//" <= a {
      LineRunStop(a);
    } else if "/*" <= a {
      BlockRunEnds(a[2..], 1);
    } else if s.kind.Literal? && s.kind.opener > 1 {
      var o := RawOpen(a).value;
      var b := RawBody(a[o.len..], o.hashes);
      if b.closed { RawBodyEnds(a[o.len..], o.hashes); }
    }
  }

  lemma {:induction false} RawBodyEnds(a: string, hashes: nat)
    requires RawBody(a, hashes).closed
    ensures a[RawBody(a, hashes).len - 1] in "\"#"
  {
    var c := Closer(hashes);
    if c <= a {
      assert a[hashes] == c[hashes];
    } else {
      RawBodyEnds(a[1..], hashes);
    }
  }

  lemma {:induction false} LineRunStop(a: string)
    ensures LineRun(a) < |a| ==> a[LineRun(a)] == '\n'
    ensures "//" <= a ==> LineRun(a) >= 2
  {
    if a != [] && a[0] != '\n' { LineRunStop(a[1..]); }
  }

  lemma {:induction false} BlockRunEnds(a: string, depth: nat)
    requires depth > 0
    ensures BlockRun(a, depth) == |a| || (BlockRun(a, depth) > 0 && a[BlockRun(a, depth) - 1] == '/')
  {
    if a != [] {
      var k := if "/*" <= a || "*/" <= a then 2 else 1;
      var deeper := if "/*" <= a then depth + 1 else if "*/" <= a then depth - 1 else depth;
      assert BlockRun(a, depth) == k + BlockRun(a[k..], deeper);
      if deeper > 0 { BlockRunEnds(a[k..], deeper); }
    }
  }

  // A character that can stand in a character literal only as the character it denotes.
  predicate Foreign(c: char) { !IsHex(c) && c !in "'\\xu{}" }

  lemma CharForeign(u: string)
    requires CharLen(u).Some?
    ensures forall i :: 0 <= i < CharLen(u).value && Foreign(u[i]) ==> i == CharLen(u).value - 2 <= 2
  {
    if u[1] == '\\' {
      EscapeForeign(u[2..]);
      var e := u[2..];
      forall i | 2 <= i < CharLen(u).value && Foreign(u[i]) ensures i == CharLen(u).value - 2 <= 2 {
        assert u[i] == e[i - 2];
      }
    }
  }

  lemma EscapeForeign(e: string)
    requires EscapeLen(e).Some?
    ensures forall i :: 0 <= i <= EscapeLen(e).value && Foreign(e[i]) ==> i == 0 && EscapeLen(e).value == 1
  {
    var n := EscapeLen(e).value;
    if n > 3 || (n == 3 && e[0] != 'x') {
      var h := HexRun(e[2..]);
      HexRunHex(e[2..]);
      forall i | 0 <= i <= n ensures !Foreign(e[i]) {
        if 2 <= i < 2 + h { assert e[i] == e[2..][i - 2]; }
        if 2 + h <= i { assert e[i] == e[2 + h..][i - 2 - h] == "}'"[i - 2 - h]; }
      }
    }
  }

  lemma {:induction false} HexRunHex(a: string)
    ensures forall i :: 0 <= i < HexRun(a) ==> IsHex(a[i])
  {
    if a != [] && IsHex(a[0]) {
      HexRunHex(a[1..]);
      forall i | 1 <= i < HexRun(a) ensures IsHex(a[i]) { assert a[i] == a[1..][i - 1]; }
    }
  }

  lemma OpenerChars(u: string)
    requires RawOpen(u).Some?
    ensures forall i :: 0 <= i < RawOpen(u).value.len ==> u[i] in "rb#\""
  {
  }
}
