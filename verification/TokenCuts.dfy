/** Two token scans that agree up to a run of blanks: no code token, character literal or
    raw opener reaches into the blanks. */
module TokenCuts {
  import opened RustLexer
  import opened LexerSteps
  import opened RustTokens

  // The same `d` characters, then at least two blanks in each.
  ghost predicate Cut(a: string, b: string, d: nat) {
    && d + 1 < |a| && d + 1 < |b| && a[..d] == b[..d]
    && a[d] in " \t" && a[d + 1] in " \t" && b[d] in " \t" && b[d + 1] in " \t"
  }

  lemma CutFlip(a: string, b: string, d: nat)
    requires Cut(a, b, d)
    ensures Cut(b, a, d)
  {
  }

  lemma CutTail(a: string, b: string, d: nat, k: nat)
    requires Cut(a, b, d) && k <= d
    ensures Cut(a[k..], b[k..], d - k)
  {
    TailPrefix(a, b, d, k);
  }

  lemma CutSame(a: string, b: string, d: nat, i: nat)
    requires Cut(a, b, d) && i < d
    ensures a[i] == b[i]
  {
  }

  lemma CutPrefix(a: string, b: string, d: nat, n: nat)
    requires Cut(a, b, d) && n <= d
    ensures a[..n] == b[..n]
  {
  }

  lemma {:induction false} CutRun(p: char -> bool, a: string, b: string, d: nat)
    requires Cut(a, b, d) && !p(' ') && !p('\t')
    ensures Run(p, a) == Run(p, b) <= d
    decreases d
  {
  }

  lemma CutLifetime(a: string, b: string, d: nat)
    requires Cut(a, b, d)
    ensures LifetimeLen(a) == LifetimeLen(b) <= d
  {
    hide Run;
    if d >= 1 { CutSame(a, b, d, 0); }
    if d >= 2 {
      CutSame(a, b, d, 1);
      CutTail(a, b, d, 2);
      CutRun(IdentPart, a[2..], b[2..], d - 2);
    }
  }

  lemma CutIdent(a: string, b: string, d: nat)
    requires Cut(a, b, d)
    ensures IdentLen(a) == IdentLen(b) <= d
  {
    hide Run;
    if d >= 1 {
      CutSame(a, b, d, 0);
      CutTail(a, b, d, 1);
      CutRun(IdentPart, a[1..], b[1..], d - 1);
    }
    if d >= 2 { CutSame(a, b, d, 1); }
    if d >= 3 {
      CutSame(a, b, d, 2);
      CutTail(a, b, d, 3);
      CutRun(IdentPart, a[3..], b[3..], d - 3);
    }
  }

  lemma CutFraction(a: string, b: string, d: nat)
    requires Cut(a, b, d)
    ensures FractionLen(a) == FractionLen(b) <= d
  {
    hide Run;
    if d >= 1 {
      CutSame(a, b, d, 0);
      CutTail(a, b, d, 1);
      CutRun(DigitPart, a[1..], b[1..], d - 1);
    }
    if d >= 2 { CutSame(a, b, d, 1); }
  }

  lemma CutExponent(a: string, b: string, d: nat)
    requires Cut(a, b, d)
    ensures ExponentLen(a) == ExponentLen(b) <= d
  {
    hide Run;
    if d >= 1 {
      CutSame(a, b, d, 0);
      CutTail(a, b, d, 1);
      CutRun(DigitPart, a[1..], b[1..], d - 1);
    }
    if d >= 2 {
      CutSame(a, b, d, 1);
      CutTail(a, b, d, 2);
      CutRun(DigitPart, a[2..], b[2..], d - 2);
    }
  }

  lemma CutSuffix(a: string, b: string, d: nat)
    requires Cut(a, b, d)
    ensures SuffixLen(a) == SuffixLen(b) <= d
  {
    hide Run;
    if d >= 1 {
      CutSame(a, b, d, 0);
      CutTail(a, b, d, 1);
      CutRun(IdentPart, a[1..], b[1..], d - 1);
    }
  }

  lemma CutRadix(a: string, b: string, d: nat)
    requires Cut(a, b, d)
    ensures RadixLen(a) == RadixLen(b) <= d
  {
    hide Run;
    if d >= 1 { CutSame(a, b, d, 0); }
    if d >= 2 {
      CutSame(a, b, d, 1);
      CutTail(a, b, d, 2);
      CutRun(IdentPart, a[2..], b[2..], d - 2);
    }
    if d >= 3 { CutSame(a, b, d, 2); }
  }

  lemma CutDecimal(a: string, b: string, d: nat)
    requires Cut(a, b, d) && d >= 1
    ensures a != [] && b != [] && DecimalLen(a) == DecimalLen(b) <= d
  {
    hide Run, FractionLen, ExponentLen, SuffixLen, Cut;
    CutEnds(a, b, d);
    CutTail(a, b, d, 1);
    CutRun(DigitPart, a[1..], b[1..], d - 1);
    var digits := 1 + Run(DigitPart, a[1..]);
    CutTail(a, b, d, digits);
    CutFraction(a[digits..], b[digits..], d - digits);
    var point := digits + FractionLen(a[digits..]);
    CutTail(a, b, d, point);
    CutExponent(a[point..], b[point..], d - point);
    var exponent := point + ExponentLen(a[point..]);
    CutTail(a, b, d, exponent);
    CutSuffix(a[exponent..], b[exponent..], d - exponent);
  }

  lemma CutEnds(a: string, b: string, d: nat)
    requires Cut(a, b, d)
    ensures d < |a| && d < |b| && a[d] in " \t" && b[d] in " \t"
  {
  }

  lemma CutNumber(a: string, b: string, d: nat)
    requires Cut(a, b, d)
    ensures NumberLen(a) == NumberLen(b) <= d
  {
    hide RadixLen, DecimalLen, Cut;
    CutEnds(a, b, d);
    CutRadix(a, b, d);
    if d >= 1 {
      CutSame(a, b, d, 0);
      CutDecimal(a, b, d);
    }
  }

  // Compound punctuation is a small alphabet.
  predicate PunctChar(c: char) { c in "<>=.:-!&|+*/%^" }

  lemma PunctChars(x: string)
    requires x in PUNCT3 || x in PUNCT2
    ensures |x| >= 2 && forall i :: 0 <= i < |x| ==> PunctChar(x[i])
    ensures x in PUNCT3 ==> |x| == 3
    ensures x in PUNCT2 ==> |x| == 2
  {
  }

  lemma CutPunct(a: string, b: string, d: nat)
    requires Cut(a, b, d)
    ensures PunctLen(a) == PunctLen(b) && (d > 0 ==> PunctLen(a) <= d)
  {
    PunctAtCut(a, b, d);
    CutFlip(a, b, d);
    PunctAtCut(b, a, d);
  }

  lemma PunctAtCut(a: string, b: string, d: nat)
    requires Cut(a, b, d)
    ensures |a| >= 3 && a[..3] in PUNCT3 ==> d >= 3 && |b| >= 3 && b[..3] == a[..3]
    ensures |a| >= 2 && a[..2] in PUNCT2 ==> d >= 2 && b[..2] == a[..2]
  {
    hide PunctLen;
    if |a| >= 3 && a[..3] in PUNCT3 {
      PunctChars(a[..3]);
      assert PunctChar(a[..3][0]) && PunctChar(a[..3][1]) && PunctChar(a[..3][2]);
      if d < 3 { assert false; }
      CutPrefix(a, b, d, 3);
    }
    if |a| >= 2 && a[..2] in PUNCT2 {
      PunctChars(a[..2]);
      assert PunctChar(a[..2][0]) && PunctChar(a[..2][1]);
      if d < 2 { assert false; }
      CutPrefix(a, b, d, 2);
    }
  }

  lemma CutCode(a: string, b: string, d: nat)
    requires Cut(a, b, d) && d > 0
    ensures a != [] && b != [] && CodeLen(a) == CodeLen(b) <= d
  {
    hide LifetimeLen, IdentLen, NumberLen, PunctLen;
    CutLifetime(a, b, d);
    CutIdent(a, b, d);
    CutNumber(a, b, d);
    CutPunct(a, b, d);
  }

  /* ---- Literals ---- */

  lemma OpenerAtCut(a: string, b: string, d: nat)
    requires Cut(a, b, d) && RawOpen(a).Some?
    ensures RawOpen(a).value.len <= d && RawOpen(b) == RawOpen(a)
  {
    hide RawOpen;
    var n := RawOpen(a).value.len;
    OpenerChars(a);
    if n > d { assert false; }
    CutPrefix(a, b, d, n);
    RawOpenPrefix(a, b);
  }

  lemma CutOpener(a: string, b: string, d: nat)
    requires Cut(a, b, d)
    ensures RawOpen(a) == RawOpen(b) && (RawOpen(a).Some? ==> RawOpen(a).value.len <= d)
  {
    hide RawOpen;
    if RawOpen(a).Some? { OpenerAtCut(a, b, d); }
    CutFlip(a, b, d);
    if RawOpen(b).Some? { OpenerAtCut(b, a, d); }
  }

  lemma CharAtCut(a: string, b: string, d: nat)
    requires Cut(a, b, d) && CharLen(a).Some?
    ensures CharLen(a).value <= d && CharLen(b) == CharLen(a)
  {
    hide CharLen;
    var n := CharLen(a).value;
    CharForeign(a);
    if n > d { assert false; }
    CutPrefix(a, b, d, n);
    CharLenPrefix(a, b);
  }

  lemma CutByteChar(a: string, b: string, d: nat)
    requires Cut(a, b, d) && d > 0
    ensures ByteCharLen(a) == ByteCharLen(b) <= d
  {
    hide CharLen;
    CutSame(a, b, d, 0);
    var k := if "b" <= a then 1 else 0;
    CutTail(a, b, d, k);
    if CharLen(a[k..]).Some? { CharAtCut(a[k..], b[k..], d - k); }
    CutFlip(a[k..], b[k..], d - k);
    if CharLen(b[k..]).Some? { CharAtCut(b[k..], a[k..], d - k); }
  }
}
