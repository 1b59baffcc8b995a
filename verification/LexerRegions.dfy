/** A text cut into the tokens of the lexer, and what each view shows of each of them. */
module LexerRegions {
  import opened RustLexer
  import opened LexerExtents
  import LexerViews

  datatype Region = Region(span: Span, kind: Kind)

  function Regions(prev: char, a: string, base: nat): seq<Region>
    decreases |a|
  {
    if a == [] then []
    else
      var s := Step(prev, a);
      [Region(Span(base, base + s.len), s.kind)] + Regions(a[s.len - 1], a[s.len..], base + s.len)
  }

  lemma RegionsStep(prev: char, a: string, base: nat)
    requires a != []
    ensures var s := Step(prev, a);
            Regions(prev, a, base) ==
            [Region(Span(base, base + s.len), s.kind)] + Regions(a[s.len - 1], a[s.len..], base + s.len)
  {
    hide Step;
  }

  lemma {:induction false} RegionsFrom(prev: char, a: string, base: nat)
    ensures forall j :: 0 <= j < |Regions(prev, a, base)| ==> Regions(prev, a, base)[j].span.from >= base
    decreases |a|
  {
    hide Step;
    if a != [] {
      var s := Step(prev, a);
      RegionsFrom(a[s.len - 1], a[s.len..], base + s.len);
    }
  }

  // The `///` spans are spans of line comments.
  lemma {:induction false} DocRegions(prev: char, a: string, base: nat)
    ensures forall i :: 0 <= i < |DocSpans(prev, a, base)| ==>
              Region(DocSpans(prev, a, base)[i], LineComment) in Regions(prev, a, base)
    decreases |a|
  {
    hide Step, DocSpans;
    DocSpansStep(prev, a, base);
    if a != [] {
      var s := Step(prev, a);
      DocRegions(a[s.len - 1], a[s.len..], base + s.len);
    }
  }

  /* ---- The cuts ---- */

  function Slice(text: string, span: Span): string {
    if span.from <= span.to <= |text| then text[span.from..span.to] else ""
  }

  // The character before an offset; a newline before the first.
  function Before(text: string, at: nat): char {
    if 0 < at <= |text| then text[at - 1] else '\n'
  }

  ghost predicate Cut(text: string, region: Region) {
    && region.span.from < region.span.to <= |text|
    && Extent(Before(text, region.span.from), text[region.span.from..],
              Segment(region.kind, region.span.to - region.span.from))
  }

  // The regions lie end to end from `base` to the end of the text, each of them a token.
  ghost predicate Cuts(text: string, regions: seq<Region>, base: nat) {
    if regions == [] then base == |text|
    else
      && regions[0].span.from == base && Cut(text, regions[0])
      && Cuts(text, regions[1..], regions[0].span.to)
  }

  lemma {:induction false} RegionsCut(text: string, base: nat)
    requires base <= |text|
    ensures Cuts(text, Regions(Before(text, base), text[base..], base), base)
    decreases |text| - base
  {
    hide Step, Extent, Regions;
    if base == |text| {
      NoRegions(Before(text, base), base);
    } else {
      var prev, a := Before(text, base), text[base..];
      var s := Step(prev, a);
      StepMeans(prev, a, s);
      RegionsStep(prev, a, base);
      assert a[s.len..] == text[base + s.len..] && a[s.len - 1] == Before(text, base + s.len);
      RegionsCut(text, base + s.len);
    }
  }

  lemma NoRegions(prev: char, base: nat)
    ensures Regions(prev, [], base) == []
  {
  }

  lemma {:induction false} CutsOnce(text: string, xs: seq<Region>, ys: seq<Region>, base: nat)
    requires Cuts(text, xs, base) && Cuts(text, ys, base)
    ensures xs == ys
    decreases |xs|
  {
    hide Extent;
    if xs != [] && ys != [] {
      SameCut(text, xs[0], ys[0]);
      CutsOnce(text, xs[1..], ys[1..], xs[0].span.to);
      assert xs == [xs[0]] + xs[1..] && ys == [ys[0]] + ys[1..];
    }
  }

  lemma SameCut(text: string, x: Region, y: Region)
    requires Cut(text, x) && Cut(text, y) && x.span.from == y.span.from
    ensures x == y
  {
    hide Extent;
    var from := x.span.from;
    var prev, a := Before(text, from), text[from..];
    StepMeans(prev, a, Segment(x.kind, x.span.to - from));
    StepMeans(prev, a, Segment(y.kind, y.span.to - from));
  }

  /* ---- What the views show ---- */

  // `shown` is a blanking of `word` that keeps its newlines.
  ghost predicate Blanked(word: string, shown: string) {
    |shown| == |word| && forall i :: 0 <= i < |word| ==> shown[i] == if word[i] == '\n' then '\n' else ' '
  }

  ghost predicate ShownAs(v: View, kind: Kind, word: string, shown: string) {
    match kind
    case Plain => shown == word
    case LineComment => Blanked(word, shown)
    case BlockComment => Blanked(word, shown)
    case Chr => LiteralShown(v, word, shown, 1, 1)
    case Literal(opener, closer) => LiteralShown(v, word, shown, opener, closer)
  }

  // Literals stay in `kept`, are blank in `skeleton`, and keep their delimiters in `keptSkeleton`.
  ghost predicate LiteralShown(v: View, word: string, shown: string, opener: nat, closer: nat) {
    match v
    case Kept => shown == word
    case Skeleton => Blanked(word, shown)
    case KeptSkeleton =>
      && opener + closer <= |word| == |shown|
      && shown[..opener] == word[..opener]
      && shown[|word| - closer..] == word[|word| - closer..]
      && Blanked(word[opener..|word| - closer], shown[opener..|word| - closer])
    case Code => false
  }

  // A string of as many newlines as `word` has.
  ghost predicate NewlinesOf(word: string, shown: string) {
    |shown| == multiset(word)['\n'] && forall i :: 0 <= i < |shown| ==> shown[i] == '\n'
  }

  // What the code view puts in place of a token.
  ghost predicate CodedAs(kind: Kind, word: string, shown: string) {
    match kind
    case Plain => shown == word
    case LineComment => shown == ""
    case BlockComment => NewlinesOf(word, shown)
    case Chr => shown == "' '"
    case Literal(_, _) => |shown| >= 2 && shown[..2] == "\"\"" && NewlinesOf(word, shown[2..])
  }

  lemma SpacesBlank(word: string)
    ensures Blanked(word, Spaces(word))
  {
  }

  lemma PieceShown(v: View, s: Segment, a: string)
    requires v != Code && s.len <= |a|
    requires s.kind.Literal? ==> s.kind.opener + s.kind.closer <= s.len
    requires s.kind.Chr? ==> s.len >= 3
    ensures ShownAs(v, s.kind, a[..s.len], Piece(v, s, a))
  {
    hide Spaces, Blanked;
    var word := a[..s.len];
    SpacesBlank(word);
    if s.kind.Chr? {
      LiteralPieceShown(v, word, "' '", 1, 1);
    } else if s.kind.Literal? {
      LiteralPieceShown(v, word, "\"\"" + Repeat('\n', Newlines(word)), s.kind.opener, s.kind.closer);
    }
  }

  lemma LiteralPieceShown(v: View, word: string, code: string, opener: nat, closer: nat)
    requires v != Code && opener + closer <= |word|
    ensures LiteralShown(v, word, LiteralPiece(v, word, code, opener, closer), opener, closer)
  {
    hide Spaces, Blanked;
    SpacesBlank(word);
    if v == KeptSkeleton {
      var middle := word[opener..|word| - closer];
      SpacesBlank(middle);
      assert |Spaces(middle)| == |middle| by { SpacesLength(middle); }
      Middle(word[..opener], Spaces(middle), word[|word| - closer..]);
    }
  }

  lemma SpacesLength(word: string)
    ensures |Spaces(word)| == |word|
  {
  }

  lemma Middle(x: string, y: string, z: string)
    ensures var w := x + y + z;
            && w[..|x|] == x && w[|x|..|x| + |y|] == y && w[|x| + |y|..] == z
  {
  }

  lemma {:induction false} NewlinesCount(word: string)
    ensures Newlines(word) == multiset(word)['\n']
  {
    if word != [] {
      NewlinesCount(word[1..]);
      assert word == [word[0]] + word[1..];
    }
  }

  lemma RepeatNewlines(word: string)
    ensures NewlinesOf(word, Repeat('\n', Newlines(word)))
  {
    NewlinesCount(word);
  }

  lemma PieceCoded(s: Segment, a: string)
    requires s.len <= |a|
    requires s.kind.Literal? ==> s.kind.opener + s.kind.closer <= s.len
    requires s.kind.Chr? ==> s.len >= 3
    ensures CodedAs(s.kind, a[..s.len], Piece(Code, s, a))
  {
    hide Repeat, Newlines, NewlinesOf;
    var word := a[..s.len];
    RepeatNewlines(word);
    var code := "\"\"" + Repeat('\n', Newlines(word));
    assert code[..2] == "\"\"" && code[2..] == Repeat('\n', Newlines(word));
  }

  ghost predicate Showing(v: View, text: string, regions: seq<Region>, shown: string) {
    && |shown| == |text|
    && forall j :: 0 <= j < |regions| ==>
         ShownAs(v, regions[j].kind, Slice(text, regions[j].span), Slice(shown, regions[j].span))
  }

  lemma {:induction false} ViewShows(v: View, text: string, shown: string, base: nat)
    requires v != Code && base <= |text| == |shown| && shown[base..] == Render(v, Before(text, base), text[base..])
    ensures Showing(v, text, Regions(Before(text, base), text[base..], base), shown)
    decreases |text| - base
  {
    hide Step, Render, Piece, ShownAs, Regions;
    var prev, a := Before(text, base), text[base..];
    if base == |text| {
      assert a == [];
      NoRegions(prev, base);
    } else {
      var s := Step(prev, a);
      var end := base + s.len;
      RegionsStep(prev, a, base);
      RenderStep(v, prev, a);
      PieceShown(v, s, a);
      LexerViews.PieceLength(v, s, a);
      TextParts(text, base, end);
      ShownParts(shown, base, end, Piece(v, s, a), Render(v, a[s.len - 1], a[s.len..]));
      ViewShows(v, text, shown, end);
    }
  }

  lemma TextParts(text: string, base: nat, end: nat)
    requires base < end <= |text|
    ensures text[base..][end - base..] == text[end..] && text[base..][..end - base] == text[base..end]
    ensures text[base..][end - base - 1] == Before(text, end)
  {
  }

  lemma ShownParts(shown: string, base: nat, end: nat, piece: string, rest: string)
    requires base <= end <= |shown| && shown[base..] == piece + rest && |piece| == end - base
    ensures shown[base..end] == piece && shown[end..] == rest
  {
    assert shown[base..][..end - base] == piece;
    assert shown[base..][end - base..] == rest;
  }

  // The code view, part by part.
  ghost predicate Coding(text: string, regions: seq<Region>, shown: string) {
    if regions == [] then shown == ""
    else
      exists n :: 0 <= n <= |shown| && CodedAs(regions[0].kind, Slice(text, regions[0].span), shown[..n])
                  && Coding(text, regions[1..], shown[n..])
  }

  lemma {:induction false} CodeShows(text: string, base: nat)
    requires base <= |text|
    ensures Coding(text, Regions(Before(text, base), text[base..], base), Render(Code, Before(text, base), text[base..]))
    decreases |text| - base
  {
    hide Step, Render, Piece, CodedAs, Regions;
    var prev, a := Before(text, base), text[base..];
    if base == |text| {
      assert a == [];
      NoRegions(prev, base);
      LexerViewsNothing(prev);
    } else {
      var s := Step(prev, a);
      var end := base + s.len;
      RegionsStep(prev, a, base);
      RenderStep(Code, prev, a);
      PieceCoded(s, a);
      TextParts(text, base, end);
      CodeShows(text, end);
      var piece, rest := Piece(Code, s, a), Render(Code, Before(text, end), text[end..]);
      var shown := piece + rest;
      assert shown[..|piece|] == piece && shown[|piece|..] == rest;
    }
  }

  lemma LexerViewsNothing(prev: char)
    ensures Render(Code, prev, []) == ""
  {
  }

  /* ---- Documentation ---- */

  // A line comment of three slashes that are not four.
  predicate IsDocRegion(text: string, region: Region) {
    var word := Slice(text, region.span);
    region.kind == LineComment && At(word, 0, '/', '/') && At(word, 1, '/', '/') && !At(word, 2, '/', '/')
  }

  ghost predicate DocsOf(text: string, regions: seq<Region>, docs: seq<Span>) {
    if regions == [] then docs == []
    else if IsDocRegion(text, regions[0]) then
      docs != [] && docs[0] == regions[0].span && DocsOf(text, regions[1..], docs[1..])
    else DocsOf(text, regions[1..], docs)
  }

  lemma DocWord(prev: char, a: string)
    requires a != []
    ensures var s := Step(prev, a);
            IsDoc(s, a) <==>
              && s.kind == LineComment
              && At(a[..s.len], 0, '/', '/') && At(a[..s.len], 1, '/', '/') && !At(a[..s.len], 2, '/', '/')
  {
    hide LineRun, BlockRun, RawOpen, RawBody, StrBody, CharLen;
    var s := Step(prev, a);
    if s.kind == LineComment {
      LineRead(a);
      Slashes(a, "///");
      Slashes(a, "////");
    }
  }

  lemma Slashes(a: string, p: string)
    ensures p <= a <==> |p| <= |a| && forall i :: 0 <= i < |p| ==> a[i] == p[i]
  {
    if |p| <= |a| && forall i :: 0 <= i < |p| ==> a[i] == p[i] { assert a[..|p|] == p; }
  }

  lemma {:induction false} DocsShown(text: string, base: nat)
    requires base <= |text|
    ensures DocsOf(text, Regions(Before(text, base), text[base..], base), DocSpans(Before(text, base), text[base..], base))
    decreases |text| - base
  {
    hide Step, IsDoc, DocSpans, Regions, At;
    var prev, a := Before(text, base), text[base..];
    DocSpansStep(prev, a, base);
    if base == |text| {
      assert a == [];
      NoRegions(prev, base);
    } else {
      var s := Step(prev, a);
      var end := base + s.len;
      RegionsStep(prev, a, base);
      DocWord(prev, a);
      assert a[s.len..] == text[end..] && a[s.len - 1] == Before(text, end) && a[..s.len] == text[base..end];
      DocsShown(text, end);
    }
  }

  /**
   * The whole lexer: there is exactly one way to cut a text into tokens, and the views show each
   * token as its kind says.
   */
  lemma LexMeans(text: string, regions: seq<Region>)
    requires Cuts(text, regions, 0)
    ensures var source := Lexed(text);
            && Showing(Kept, text, regions, source.kept)
            && Showing(Skeleton, text, regions, source.skeleton)
            && Showing(KeptSkeleton, text, regions, source.keptSkeleton)
            && Coding(text, regions, source.code)
            && DocsOf(text, regions, source.lineDocs)
  {
    hide Cuts, Render, DocSpans, Regions, Showing, Coding, DocsOf;
    assert text[0..] == text;
    RegionsCut(text, 0);
    CutsOnce(text, regions, Regions('\n', text, 0), 0);
    forall v: View | v != Code ensures Showing(v, text, regions, Render(v, '\n', text)) {
      WholeView(v, text);
    }
    CodeShows(text, 0);
    DocsShown(text, 0);
  }

  lemma WholeView(v: View, text: string)
    requires v != Code
    ensures Showing(v, text, Regions('\n', text, 0), Render(v, '\n', text))
  {
    hide Render, Regions, Showing;
    assert text[0..] == text;
    var shown := Render(v, '\n', text);
    assert shown[0..] == shown;
    assert |shown| == |text| by { LexerViews.RenderAligned(v, v, '\n', text); LexerViews.AlignedLength(shown, text); }
    ViewShows(v, text, shown, 0);
  }

  // Every text can be cut.
  lemma CutExists(text: string)
    ensures Cuts(text, Regions('\n', text, 0), 0)
  {
    hide Cuts, Regions;
    assert text[0..] == text;
    RegionsCut(text, 0);
  }
}
