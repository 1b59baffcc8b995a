/** The views of one text share its offsets and its newlines. */
module LexerViews {
  import opened RustLexer
  import LexerSteps

  // `shown` is `text` with some characters blanked: offsets and newlines stay in place.
  ghost predicate Aligned(shown: string, text: string) {
    && |shown| == |text|
    && forall j :: 0 <= j < |text| ==> shown[j] == text[j] || (shown[j] == ' ' && text[j] != '\n')
  }

  lemma AlignedAppend(s: string, t: string, s': string, t': string)
    requires Aligned(s, t) && Aligned(s', t')
    ensures Aligned(s + s', t + t')
  {
  }

  lemma PieceAligned(v: View, w: View, s: Segment, a: string)
    requires s.len <= |a|
    requires s.kind.Literal? ==> s.kind.opener + s.kind.closer <= s.len
    requires s.kind.Chr? ==> s.len >= 3
    requires v != Code && w != Code && (v == w || v == Skeleton || w == Kept)
    ensures Aligned(Piece(v, s, a), Piece(w, s, a))
    ensures Aligned(Piece(v, s, a), a[..s.len])
  {
    hide Spaces, Aligned, LiteralPiece;
    var word := a[..s.len];
    SpacesAligned(word);
    if s.kind.Chr? {
      LiteralAligned(v, w, word, "' '", 1, 1);
    } else if s.kind.Literal? {
      LiteralAligned(v, w, word, "\"\"" + Repeat('\n', Newlines(word)), s.kind.opener, s.kind.closer);
    }
  }

  lemma SpacesAligned(a: string)
    ensures Aligned(Spaces(a), a) && Aligned(a, a) && Aligned(Spaces(a), Spaces(a))
  {
  }

  lemma LiteralAligned(v: View, w: View, word: string, code: string, opener: nat, closer: nat)
    requires opener + closer <= |word|
    requires v != Code && w != Code && (v == w || v == Skeleton || w == Kept)
    ensures Aligned(LiteralPiece(v, word, code, opener, closer), LiteralPiece(w, word, code, opener, closer))
    ensures Aligned(LiteralPiece(v, word, code, opener, closer), word)
  {
  }

  // Offset by offset the skeleton is a blanking of the kept skeleton, that of the kept
  // view, and that of the text.
  lemma NothingAligned(v: View, w: View, prev: char)
    ensures Aligned(Render(v, prev, []), Render(w, prev, [])) && Aligned(Render(v, prev, []), [])
  {
  }

  lemma {:induction false} RenderAligned(v: View, w: View, prev: char, a: string)
    requires v != Code && w != Code && (v == w || v == Skeleton || w == Kept)
    ensures Aligned(Render(v, prev, a), Render(w, prev, a))
    ensures Aligned(Render(v, prev, a), a)
    decreases |a|
  {
    hide Step, Piece, Render, Aligned;
    if a == [] {
      NothingAligned(v, w, prev);
    } else {
      var s := Step(prev, a);
      var rest, prev' := a[s.len..], a[s.len - 1];
      RenderAligned(v, w, prev', rest);
      RenderStep(v, prev, a);
      RenderStep(w, prev, a);
      PieceAligned(v, w, s, a);
      AlignedAppend(Piece(v, s, a), Piece(w, s, a), Render(v, prev', rest), Render(w, prev', rest));
      AlignedAppend(Piece(v, s, a), a[..s.len], Render(v, prev', rest), rest);
      assert a == a[..s.len] + rest;
    }
  }

  lemma {:induction false} NewlinesRepeat(n: nat)
    ensures Newlines(Repeat('\n', n)) == n
  {
    if n > 0 {
      NewlinesRepeat(n - 1);
      assert Repeat('\n', n)[1..] == Repeat('\n', n - 1);
    }
  }

  lemma {:induction false} NoNewlineInside(a: string, n: nat)
    requires n <= |a|
    requires forall i :: 0 <= i < n ==> a[i] != '\n'
    ensures Newlines(a[..n]) == 0
  {
    NoNewlines(a[..n]);
  }

  lemma {:induction false} LineRunStops(a: string)
    ensures forall i :: 0 <= i < LineRun(a) ==> a[i] != '\n'
    ensures LineRun(a) < |a| ==> a[LineRun(a)] == '\n'
  {
    if a != [] && a[0] != '\n' {
      LineRunStops(a[1..]);
      forall i | 1 <= i < LineRun(a) ensures a[i] != '\n' { assert a[i] == a[1..][i - 1]; }
    }
  }

  lemma CharHasNoNewline(a: string)
    requires CharLen(a).Some?
    ensures forall i :: 0 <= i < CharLen(a).value ==> a[i] != '\n'
  {
    LexerSteps.CharForeign(a);
  }

  // The code view keeps the newline count of every token it drops or shortens.
  lemma CodePiece(prev: char, a: string)
    requires a != []
    ensures var s := Step(prev, a); Newlines(Piece(Code, s, a)) == Newlines(a[..s.len])
  {
    hide RawOpen, RawBody, StrBody, BlockRun, CharLen, Repeat;
    var s := Step(prev, a);
    NewlinesRepeat(Newlines(a[..s.len]));
    NoNewlines("\"\"");
    NoNewlines("' '");
    NewlinesAppend("\"\"", Repeat('\n', Newlines(a[..s.len])));
    if s.kind.LineComment? {
      LineRunStops(a);
      NoNewlineInside(a, s.len);
    } else if s.kind.Chr? {
      CharHasNoNewline(a);
      NoNewlineInside(a, s.len);
    }
  }

  lemma {:induction false} CodeNewlines(prev: char, a: string)
    ensures Newlines(Render(Code, prev, a)) == Newlines(a)
    decreases |a|
  {
    hide Step, Piece;
    if a != [] {
      var s := Step(prev, a);
      CodeNewlines(a[s.len - 1], a[s.len..]);
      CodePiece(prev, a);
      NewlinesAppend(Piece(Code, s, a), Render(Code, a[s.len - 1], a[s.len..]));
      NewlinesAppend(a[..s.len], a[s.len..]);
      assert a == a[..s.len] + a[s.len..];
    }
  }

  // A documentation span is the rest of a line, starts with exactly three slashes, and
  // every offset of it is blank in the kept view.
  ghost predicate IsDocSpan(span: Span, text: string, kept: string)
    requires |kept| == |text|
  {
    && span.from + 3 <= span.to <= |text|
    && "///" <= text[span.from..] && !("////" <= text[span.from..])
    && (forall j :: span.from <= j < span.to ==> text[j] != '\n' && kept[j] == ' ')
    && (span.to < |text| ==> text[span.to] == '\n')
  }

  ghost predicate Ordered(spans: seq<Span>) {
    forall i, j :: 0 <= i < j < |spans| ==> spans[i].to <= spans[j].from
  }

  lemma DocHere(prev: char, a: string, kept: string)
    requires a != [] && IsDoc(Step(prev, a), a)
    requires |kept| == |a| && kept[..Step(prev, a).len] == Piece(Kept, Step(prev, a), a)
    ensures IsDocSpan(Span(0, Step(prev, a).len), a, kept)
  {
    LineRunStops(a);
    var s := Step(prev, a);
    forall j | 0 <= j < s.len ensures a[j] != '\n' && kept[j] == ' ' {
      assert kept[j] == kept[..s.len][j] == Spaces(a[..s.len])[j];
    }
    assert a[0] == a[1] == a[2] == '/';
    assert a[0..] == a;
  }

  lemma DropMore(s: string, t: string, base: nat, n: nat)
    requires base <= |s| && s[base..] == t && n <= |t|
    ensures s[base + n..] == t[n..]
  {
  }

  ghost predicate Sound(spans: seq<Span>, base: nat, text: string, kept: string)
    requires |kept| == |text|
  {
    && Ordered(spans)
    && forall i :: 0 <= i < |spans| ==> base <= spans[i].from && IsDocSpan(spans[i], text, kept)
  }

  lemma SoundPrepend(span: Span, spans: seq<Span>, text: string, kept: string)
    requires |kept| == |text| && IsDocSpan(span, text, kept)
    requires Sound(spans, span.to, text, kept)
    ensures Sound([span] + spans, span.from, text, kept)
  {
  }

  lemma NothingSound(base: nat, text: string, kept: string)
    requires |kept| == |text|
    ensures Sound([], base, text, kept)
  {
  }

  lemma SoundLower(spans: seq<Span>, base: nat, lower: nat, text: string, kept: string)
    requires |kept| == |text| && lower <= base && Sound(spans, base, text, kept)
    ensures Sound(spans, lower, text, kept)
  {
  }

  lemma PieceLength(v: View, s: Segment, a: string)
    requires s.len <= |a| && v != Code
    requires s.kind.Literal? ==> s.kind.opener + s.kind.closer <= s.len
    requires s.kind.Chr? ==> s.len >= 3
    ensures |Piece(v, s, a)| == s.len
  {
  }

  // The spans of what is left to read at offset `base`.
  lemma {:induction false} DocSpansSound(prev: char, a: string, text: string, kept: string, base: nat)
    requires base <= |text| == |kept| && text[base..] == a && kept[base..] == Render(Kept, prev, a)
    ensures Sound(DocSpans(prev, a, base), base, text, kept)
    decreases |a|
  {
    hide Step, Piece, Render, DocSpans, IsDoc, IsDocSpan, Sound, Aligned;
    if a == [] {
      DocSpansStep(prev, a, base);
      NothingSound(base, text, kept);
    } else {
      var s := Step(prev, a);
      var k := Render(Kept, prev, a);
      KeptFront(prev, a);
      DropMore(text, a, base, s.len);
      DropMore(kept, k, base, s.len);
      var spans := DocSpans(a[s.len - 1], a[s.len..], base + s.len);
      DocSpansSound(a[s.len - 1], a[s.len..], text, kept, base + s.len);
      if IsDoc(s, a) {
        DocHere(prev, a, k);
        ShiftDocSpan(s.len, a, k, text, kept, base);
        var span := Span(base, base + s.len);
        assert IsDocSpan(span, text, kept) && Sound(spans, span.to, text, kept);
        SoundPrepend(span, spans, text, kept);
      } else {
        SoundLower(spans, base + s.len, base, text, kept);
      }
      DocSpansStep(prev, a, base);
    }
  }

  // The kept view of the first token, and of the rest.
  lemma KeptFront(prev: char, a: string)
    requires a != []
    ensures var s, k := Step(prev, a), Render(Kept, prev, a);
            && |k| == |a| && k[..s.len] == Piece(Kept, s, a) && k[s.len..] == Render(Kept, a[s.len - 1], a[s.len..])
  {
    hide Step, Piece, Render, Aligned;
    PieceLength(Kept, Step(prev, a), a);
    RenderStep(Kept, prev, a);
    assert |Render(Kept, prev, a)| == |a| by { RenderAligned(Kept, Kept, prev, a); AlignedLength(Render(Kept, prev, a), a); }
  }

  lemma AlignedLength(shown: string, text: string)
    requires Aligned(shown, text)
    ensures |shown| == |text|
  {
  }

  lemma ShiftDocSpan(n: nat, a: string, k: string, text: string, kept: string, base: nat)
    requires base <= |text| == |kept| && text[base..] == a && kept[base..] == k
    requires IsDocSpan(Span(0, n), a, k)
    ensures IsDocSpan(Span(base, base + n), text, kept)
  {
  }

  /** For every text, terminated or not: the three offset-preserving views are nested
      blankings of it, the code view has as many newlines, and the documentation spans are
      disjoint, in order, and whole `///` comments. */
  lemma ViewsAlign(text: string)
    ensures var source := Lexed(text);
            && Aligned(source.kept, text)
            && Aligned(source.keptSkeleton, source.kept)
            && Aligned(source.skeleton, source.keptSkeleton)
            && Newlines(source.code) == Newlines(text)
            && Sound(source.lineDocs, 0, text, source.kept)
  {
    hide Step, Render, DocSpans, IsDocSpan;
    RenderAligned(KeptSkeleton, Kept, '\n', text);
    RenderAligned(Skeleton, KeptSkeleton, '\n', text);
    RenderAligned(Kept, Kept, '\n', text);
    CodeNewlines('\n', text);
    assert text[0..] == text && Render(Kept, '\n', text)[0..] == Render(Kept, '\n', text);
    DocSpansSound('\n', text, text, Render(Kept, '\n', text), 0);
  }
}
