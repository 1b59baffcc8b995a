/** Lexing a blanked view again changes nothing. */
module LexerIdempotence {
  import opened RustLexer
  import opened LexerViews
  import opened LexerSteps

  predicate IsBlank(c: char) { c == ' ' || c == '\n' }

  // Blanks are plain code.
  lemma BlankRun(v: View, prev: char, b: string, x: string)
    requires forall i :: 0 <= i < |b| ==> IsBlank(b[i])
    ensures Render(v, prev, b + x) == b + Render(v, PrevAt(prev, b, |b|), x)
  {
    hide Step, Render;
    var a := b + x;
    forall p | 0 <= p < |b| ensures Step(PrevAt(prev, a, p), a[p..]).kind == Plain {
      assert a[p..][0] == b[p];
      BlankIsPlain(PrevAt(prev, a, p), a[p..]);
    }
    PlainRun(v, prev, a, |b|, 0);
    assert a[|b|..] == x && a[..|b|] == b;
  }

  lemma BlankIsPlain(prev: char, a: string)
    requires a != [] && IsBlank(a[0])
    ensures Step(prev, a).kind == Plain
  {
  }

  predicate Blanking(v: View) { v == Kept || v == Skeleton }

  // A blanked token blanks at least its first two characters, or all that is left.
  lemma BlankPair(v: View, prev: char, a: string)
    requires Blanking(v) && |a| >= 2
    ensures var u := Render(v, prev, a);
            |u| == |a| && (u[0] != a[0] ==> IsBlank(u[1]))
  {
    hide Step, Render, Piece;
    var s := Step(prev, a);
    RenderAligned(v, v, prev, a);
    RenderStep(v, prev, a);
    PieceLength(v, s, a);
    PieceWhole(v, s, a);
    if s.kind != Plain { StepEnds(prev, a); }
  }

  // The kept view and the skeleton show a token whole or blank it whole.
  lemma PieceWhole(v: View, s: Segment, a: string)
    requires 1 <= s.len <= |a| && Blanking(v)
    requires s.kind.Literal? ==> s.kind.opener + s.kind.closer <= s.len
    requires s.kind.Chr? ==> s.len >= 3
    ensures Piece(v, s, a) == if Shown(v, s) then a[..s.len] else Spaces(a[..s.len])
  {
  }

  predicate Shown(v: View, s: Segment) {
    s.kind.Plain? || (v == Kept && (s.kind.Chr? || s.kind.Literal?))
  }

  // No character literal appears by blanking.
  lemma CharStays(v: View, prev: char, a: string)
    requires Blanking(v) && a != [] && a[0] == '\'' && Step(prev, a).kind == Plain
    ensures CharLen(Render(v, prev, a)).None?
  {
    hide Step, Render, CharLen, EscapeLen;
    var u := Render(v, prev, a);
    PlainStep(v, prev, a, 0);
    RenderAligned(v, v, prev, a);
    if CharLen(u).Some? {
      var n := CharLen(u).value;
      CharForeign(u);
      forall i | 0 <= i < n ensures u[i] == a[i] {
        if IsBlank(u[i]) { CharBlankStays(v, prev, a, i); }
      }
      assert a[..n] == u[..n];
      CharLenPrefix(u, a);
      NotChar(prev, a);
    }
  }

  lemma NotChar(prev: char, a: string)
    requires a != [] && Step(prev, a).kind == Plain && a[0] == '\''
    ensures CharLen(a).None?
  {
  }

  lemma CharBlankStays(v: View, prev: char, a: string, i: nat)
    requires Blanking(v) && a != [] && a[0] == '\'' && Step(prev, a).kind == Plain
    requires CharLen(Render(v, prev, a)).Some? && i == CharLen(Render(v, prev, a)).value - 2 <= 2
    requires |Render(v, prev, a)| == |a|
    ensures Render(v, prev, a)[i] == a[i]
  {
    hide Step, Render, CharLen;
    var u := Render(v, prev, a);
    CharShape(u);
    PlainStep(v, prev, a, 0);
    assert u[1..] == Render(v, a[0], a[1..]);
    RenderAligned(v, v, a[0], a[1..]);
    BlankPair(v, a[0], a[1..]);
    assert u[1..][0] == u[1] && u[1..][1] == u[2];
    if i == 2 {
      BackslashIsPlain(a[0], a[1..]);
      PlainStep(v, a[0], a[1..], 0);
      assert a[1..][1..] == a[2..];
      assert u[2..] == u[1..][1..] == Render(v, a[1], a[2..]);
      BlankPair(v, a[1], a[2..]);
      assert u[2..][1] == u[3] && u[2..][0] == u[2];
    }
  }

  lemma CharShape(u: string)
    requires CharLen(u).Some?
    ensures CharLen(u).value == 3 ==> u[2] == '\''
    ensures CharLen(u).value == 4 ==> u[1] == '\\' && u[3] == '\''
  {
  }

  lemma BackslashIsPlain(prev: char, a: string)
    requires a != [] && a[0] == '\\'
    ensures Step(prev, a).kind == Plain
  {
  }

  // Plain code stays plain in a blanked view.
  lemma PlainStays(v: View, prev: char, prev': char, a: string)
    requires Blanking(v) && a != [] && SamePrev(prev, prev', a) && Step(prev, a).kind == Plain
    ensures Step(prev', Render(v, prev, a)).kind == Plain
  {
    hide Render, Step, CharLen, RawOpen, IsWord;
    var u := Render(v, prev, a);
    PlainStep(v, prev, a, 0);
    RenderAligned(v, v, prev, a);
    OpensNothing(prev, a);
    if a[0] == '\'' { CharStays(v, prev, a); } else { CharQuote(u); }
    if RawOpen(u).Some? {
      RawStays(u, a);
    }
    assert !("//" <= u) && !("/*" <= u);
    StaysPlain(prev', u);
  }

  // What a plain step says about the text, and what makes a step plain.
  lemma OpensNothing(prev: char, a: string)
    requires a != [] && Step(prev, a).kind == Plain
    ensures !("//" <= a) && !("/*" <= a) && a[0] != '"' && CharLen(a).None? && (RawOpen(a).Some? ==> IsWord(prev))
  {
    hide CharLen, RawOpen, RawBody, StrBody, BlockRun, LineRun, IsWord;
  }

  lemma StaysPlain(prev: char, u: string)
    requires u != [] && !("//" <= u) && !("/*" <= u) && u[0] != '"' && CharLen(u).None?
    requires RawOpen(u).Some? ==> IsWord(prev)
    ensures Step(prev, u).kind == Plain
  {
    hide CharLen, RawOpen, RawBody, StrBody, BlockRun, LineRun, IsWord;
  }

  lemma CharQuote(u: string)
    requires u != [] && u[0] != '\''
    ensures CharLen(u).None?
  {
  }

  // No raw opener appears by blanking.
  lemma RawStays(u: string, a: string)
    requires LexerViews.Aligned(u, a) && RawOpen(u).Some?
    ensures RawOpen(a).Some? && a[0] in "rb"
  {
    hide RawOpen;
    var n := RawOpen(u).value.len;
    OpenerChars(u);
    assert a[..n] == u[..n];
    RawOpenPrefix(u, a);
  }

  // Lexing what `v` shows of `a`, and looking at it through `w`.
  lemma {:induction false} Relex(v: View, w: View, prev: char, prev': char, a: string)
    requires Blanking(v) && Blanking(w) && (v == w || w == Skeleton) && SamePrev(prev, prev', a)
    ensures Render(w, prev', Render(v, prev, a)) == Render(w, prev, a)
    decreases |a|
  {
    hide Step, Render, Piece, SamePrev;
    if a == [] {
      NothingShown(v, prev);
      NothingShown(w, prev);
      NothingShown(w, prev');
    } else {
      var s := Step(prev, a);
      var last, rest := a[s.len - 1], a[s.len..];
      var u, u' := Render(v, prev, a), Render(v, last, rest);
      RenderStep(v, prev, a);
      RenderStep(w, prev, a);
      PieceWhole(v, s, a);
      PieceWhole(w, s, a);
      RenderAligned(v, v, last, rest);
      if s.kind == Plain {
        PlainStays(v, prev, prev', a);
        PlainStep(v, prev, a, 0);
        PlainStep(w, prev', u, 0);
        SamePrevRefl(last, rest);
        Relex(v, w, last, last, rest);
      } else if Shown(v, s) {
        assert u[..s.len] == a[..s.len] && u[s.len..] == u';
        if s.len == |a| { assert u == a; }
        StepPrefix(prev, prev', a, u);
        RenderStep(w, prev', u);
        PieceWhole(w, s, u);
        SamePrevRefl(last, rest);
        Relex(v, w, last, last, rest);
      } else {
        BlankRun(w, prev', Spaces(a[..s.len]), u');
        AfterBlanks(prev, a);
        Relex(v, w, last, Spaces(a[..s.len])[s.len - 1], rest);
      }
    }
  }

  lemma NothingShown(v: View, prev: char)
    ensures Render(v, prev, []) == []
  {
  }

  lemma SamePrevRefl(prev: char, a: string)
    ensures SamePrev(prev, prev, a)
  {
  }

  // A blank in place of the last character of a token opens no literal after it.
  lemma AfterBlanks(prev: char, a: string)
    requires a != [] && Step(prev, a).kind != Plain
    ensures var s := Step(prev, a);
            SamePrev(a[s.len - 1], Spaces(a[..s.len])[s.len - 1], a[s.len..])
  {
    hide Step;
    StepEnds(prev, a);
  }

  /** Lexing is idempotent: the kept view has the same kept view and skeleton as the text,
      and the skeleton is its own skeleton. Comment and literal contents never come back. */
  lemma LexIdempotent(text: string)
    ensures Lexed(Lexed(text).kept).kept == Lexed(text).kept
    ensures Lexed(Lexed(text).kept).skeleton == Lexed(text).skeleton
    ensures Lexed(Lexed(text).skeleton).skeleton == Lexed(text).skeleton
  {
    hide Render, DocSpans;
    Relex(Kept, Kept, '\n', '\n', text);
    Relex(Kept, Skeleton, '\n', '\n', text);
    Relex(Skeleton, Skeleton, '\n', '\n', text);
  }
}
