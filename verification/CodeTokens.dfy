/**
 * What a code token is, said without the token scan: identifiers, lifetimes, numbers and a
 * written-out list of operators, each as long as it can be.
 */
module CodeTokens {
  import opened RustTokens

  /* ---- Characters ---- */

  predicate Letter(c: char) { 'A' <= c <= 'Z' || 'a' <= c <= 'z' }

  predicate Digit(c: char) { '0' <= c <= '9' }

  predicate Initial(c: char) { Letter(c) || c == '_' }

  predicate Part(c: char) { Letter(c) || c == '_' || Digit(c) }

  predicate Digital(c: char) { Digit(c) || c == '_' }

  const OPERATORS := [
    "<<=", ">>=", "..=", "...",
    "::", "->", "=>", "==", "!=", "<=", ">=", "&&", "||", "+=", "-=", "*=", "/=", "%=", "^=", "&=", "|=", "<<", ">>", ".."
  ]

  /* ---- The forms, at the front of a text ---- */

  // Characters of one kind from `i` up to `n`, and not at `n`.
  ghost predicate RunTo(p: char -> bool, a: string, i: nat, n: nat) {
    i <= n <= |a| && (forall j :: i <= j < n ==> p(a[j])) && (n < |a| ==> !p(a[n]))
  }

  ghost predicate LifetimeAt(a: string, n: nat) {
    |a| >= 2 && a[0] == '\'' && Initial(a[1]) && RunTo(Part, a, 2, n)
  }

  predicate RawIdentifier(a: string) { |a| >= 3 && a[0] == 'r' && a[1] == '#' && Initial(a[2]) }

  ghost predicate IdentAt(a: string, n: nat) {
    if RawIdentifier(a) then RunTo(Part, a, 3, n) else a != "" && Initial(a[0]) && RunTo(Part, a, 1, n)
  }

  predicate RadixHere(a: string) {
    |a| >= 3 && a[0] == '0' && (a[1] == 'x' || a[1] == 'o' || a[1] == 'b') && Part(a[2])
  }

  // A point that no second point follows.
  predicate PointHere(a: string, d: nat) { d < |a| && a[d] == '.' && !(d + 1 < |a| && a[d + 1] == '.') }

  // Where the digits of an exponent start, after its sign.
  function ExponentFrom(a: string, f: nat): nat {
    if f + 1 < |a| && (a[f + 1] == '+' || a[f + 1] == '-') then f + 2 else f + 1
  }

  predicate ExponentHere(a: string, f: nat) {
    && f < |a| && (a[f] == 'e' || a[f] == 'E')
    && ExponentFrom(a, f) < |a| && Digital(a[ExponentFrom(a, f)])
  }

  // Digits up to `d`, a fraction up to `f`, an exponent up to `e` and a suffix up to `n`.
  ghost predicate DecimalCuts(a: string, d: nat, f: nat, e: nat, n: nat) {
    && a != "" && Digit(a[0]) && RunTo(Digital, a, 1, d)
    && (if PointHere(a, d) then RunTo(Digital, a, d + 1, f) else f == d)
    && (if ExponentHere(a, f) then RunTo(Digital, a, ExponentFrom(a, f), e) else e == f)
    && (if e < |a| && Letter(a[e]) then RunTo(Part, a, e + 1, n) else n == e)
  }

  ghost predicate NumberAt(a: string, n: nat) {
    if RadixHere(a) then RunTo(Part, a, 2, n) else exists d: nat, f: nat, e: nat :: DecimalCuts(a, d, f, e, n)
  }

  // An operator of the list, and no longer one stands here.
  ghost predicate OperatorAt(a: string, n: nat) {
    n <= |a| && a[..n] in OPERATORS && forall m :: n < m <= |a| ==> a[..m] !in OPERATORS
  }

  ghost predicate NoOperator(a: string) { forall m :: 0 <= m <= |a| ==> a[..m] !in OPERATORS }

  // The code token at the front of `a` is `n` long.
  ghost predicate CodeAt(a: string, n: nat)
    requires a != ""
  {
    if a[0] == '\'' && |a| >= 2 && Initial(a[1]) then LifetimeAt(a, n)
    else if Initial(a[0]) then IdentAt(a, n)
    else if Digit(a[0]) then NumberAt(a, n)
    else OperatorAt(a, n) || (n == 1 && NoOperator(a))
  }

  /* ---- The scan's lengths ---- */

  lemma RunToOnce(q: char -> bool, a: string, i: nat, n: nat, m: nat)
    requires RunTo(q, a, i, n) && RunTo(q, a, i, m)
    ensures n == m
  {
  }

  lemma RunIs(p: char -> bool, q: char -> bool, a: string, i: nat, n: nat)
    requires i <= |a| && forall c :: p(c) == q(c)
    ensures n == i + Run(p, a[i..]) <==> RunTo(q, a, i, n)
  {
    var r := Run(p, a[i..]);
    forall j | i <= j < i + r ensures q(a[j]) { assert p(a[i..][j - i]); }
    if i + r < |a| { assert !p(a[i..][r]); }
    assert RunTo(q, a, i, i + r);
    if RunTo(q, a, i, n) { RunToOnce(q, a, i, n, i + r); }
  }

  lemma LifetimeIs(a: string, n: nat)
    requires |a| >= 2 && a[0] == '\'' && Initial(a[1])
    ensures LifetimeLen(a) == n <==> LifetimeAt(a, n)
  {
    hide Run;
    RunIs(IdentPart, Part, a, 2, n);
  }

  lemma IdentIs(a: string, n: nat)
    requires a != "" && Initial(a[0])
    ensures IdentLen(a) > 0 && (IdentLen(a) == n <==> IdentAt(a, n))
  {
    hide Run;
    RawIdent(a);
    RunIs(IdentPart, Part, a, 1, n);
    if |a| >= 3 { RunIs(IdentPart, Part, a, 3, n); }
  }

  lemma RawIdent(a: string)
    ensures |a| >= 3 && "r#" <= a && IdentStart(a[2]) <==> RawIdentifier(a)
  {
    if RawIdentifier(a) { assert a[..2] == "r#"; }
    if |a| >= 2 && "r#" <= a { assert a[0] == "r#"[0] && a[1] == "r#"[1]; }
  }

  lemma FractionIs(a: string, d: nat, f: nat)
    requires d <= |a|
    ensures f == d + FractionLen(a[d..]) <==> if PointHere(a, d) then RunTo(Digital, a, d + 1, f) else f == d
  {
    hide Run;
    var x := a[d..];
    if d < |a| {
      assert x[1..] == a[d + 1..];
      Points(x);
      RunIs(DigitPart, Digital, a, d + 1, f);
    }
  }

  lemma Points(x: string)
    ensures "." <= x <==> x != "" && x[0] == '.'
    ensures ".." <= x <==> |x| >= 2 && x[0] == '.' && x[1] == '.'
  {
    if x != "" && x[0] == '.' { assert x[..1] == "."; }
    if |x| >= 2 && x[0] == '.' && x[1] == '.' { assert x[..2] == ".."; }
    if ".." <= x { assert x[0] == ".."[0] && x[1] == ".."[1]; }
  }

  lemma ExponentIs(a: string, f: nat, e: nat)
    requires f <= |a|
    ensures e == f + ExponentLen(a[f..]) <==>
            if ExponentHere(a, f) then RunTo(Digital, a, ExponentFrom(a, f), e) else e == f
  {
    hide Run, RunTo;
    if f < |a| && a[f] in "eE" {
      var k := ExponentFrom(a, f);
      ExponentParts(a, f, k);
      hide ExponentLen;
      RunIs(DigitPart, Digital, a, k, k + Run(DigitPart, a[k..]));
      RunIs(DigitPart, Digital, a, k, e);
      RunStarts(a, k, e);
      RunStarts(a, k, k + Run(DigitPart, a[k..]));
    }
  }

  lemma ExponentParts(a: string, f: nat, k: nat)
    requires f < |a| && a[f] in "eE" && k == ExponentFrom(a, f)
    ensures k <= |a|
    ensures var r := Run(DigitPart, a[k..]); ExponentLen(a[f..]) == if r == 0 then 0 else k - f + r
  {
    hide Run;
    assert a[f..][k - f..] == a[k..];
  }

  // A run is empty exactly where its first character does not belong to it.
  lemma RunStarts(a: string, k: nat, e: nat)
    ensures RunTo(Digital, a, k, e) ==> (e == k <==> !(k < |a| && Digital(a[k])))
  {
  }

  lemma SuffixIs(a: string, e: nat, n: nat)
    requires e <= |a|
    ensures n == e + SuffixLen(a[e..]) <==> if e < |a| && Letter(a[e]) then RunTo(Part, a, e + 1, n) else n == e
  {
    hide Run;
    if e < |a| {
      assert a[e..][1..] == a[e + 1..];
      RunIs(IdentPart, Part, a, e + 1, n);
    }
  }

  lemma DecimalIs(a: string, n: nat)
    requires a != "" && Digit(a[0])
    ensures DecimalLen(a) == n <==> exists d: nat, f: nat, e: nat :: DecimalCuts(a, d, f, e, n)
  {
    hide Run, FractionLen, ExponentLen, SuffixLen, RunTo, PointHere, ExponentHere, ExponentFrom;
    var d := 1 + Run(DigitPart, a[1..]);
    var f := d + FractionLen(a[d..]);
    var e := f + ExponentLen(a[f..]);
    RunIs(DigitPart, Digital, a, 1, d);
    FractionIs(a, d, f);
    ExponentIs(a, f, e);
    SuffixIs(a, e, n);
    if DecimalLen(a) == n { assert DecimalCuts(a, d, f, e, n); }
    if d': nat, f': nat, e': nat :| DecimalCuts(a, d', f', e', n) {
      RunIs(DigitPart, Digital, a, 1, d');
      FractionIs(a, d, f');
      ExponentIs(a, f, e');
    }
  }

  lemma NumberIs(a: string, n: nat)
    requires a != "" && Digit(a[0])
    ensures NumberLen(a) > 0 && (NumberLen(a) == n <==> NumberAt(a, n))
  {
    hide Run, DecimalLen, DecimalCuts;
    if |a| >= 2 { RunIs(IdentPart, Part, a, 2, n); }
    DecimalIs(a, n);
    DecimalPositive(a);
    if RadixHere(a) { RadixPositive(a); }
  }

  lemma DecimalPositive(a: string)
    requires a != ""
    ensures DecimalLen(a) > 0
  {
  }

  lemma RadixPositive(a: string)
    requires RadixHere(a)
    ensures RadixLen(a) == 2 + Run(IdentPart, a[2..]) > 0
  {
  }

  /* ---- Operators ---- */

  // The scan's two tables are the list.
  lemma TablesListed(w: string)
    ensures w in PUNCT3 ==> |w| == 3
    ensures w in PUNCT2 ==> |w| == 2
    ensures w in OPERATORS <==> w in PUNCT3 || w in PUNCT2
  {
    Listed3(w);
    Listed2(w);
    assert OPERATORS == PUNCT3 + PUNCT2;
  }

  lemma Listed3(w: string)
    ensures w in PUNCT3 ==> |w| == 3
  {
  }

  lemma Listed2(w: string)
    ensures w in PUNCT2 ==> |w| == 2
  {
  }

  lemma OperatorIs(a: string, n: nat)
    ensures PunctLen(a) > 0 ==> (PunctLen(a) == n <==> OperatorAt(a, n))
    ensures PunctLen(a) == 0 <==> NoOperator(a)
    ensures PunctLen(a) == 0 ==> !OperatorAt(a, n)
  {
    forall m | 0 <= m <= |a| ensures a[..m] in OPERATORS <==> (m == 3 && a[..3] in PUNCT3) || (m == 2 && a[..2] in PUNCT2) {
      TablesListed(a[..m]);
    }
    hide PunctLen, OperatorAt, NoOperator;
    OperatorCases(a, n);
  }

  lemma OperatorCases(a: string, n: nat)
    requires forall m :: 0 <= m <= |a| ==> (a[..m] in OPERATORS <==> (m == 3 && a[..3] in PUNCT3) || (m == 2 && a[..2] in PUNCT2))
    ensures PunctLen(a) > 0 ==> (PunctLen(a) == n <==> OperatorAt(a, n))
    ensures PunctLen(a) == 0 <==> NoOperator(a)
    ensures PunctLen(a) == 0 ==> !OperatorAt(a, n)
  {
  }

  /** The scan reads a code token exactly as long as its form allows. */
  lemma CodeMeans(a: string, n: nat)
    requires a != ""
    ensures CodeLen(a) == n <==> CodeAt(a, n)
  {
    hide LifetimeAt, IdentAt, NumberAt, OperatorAt, NoOperator;
    NotLifetime(a);
    NotIdent(a);
    NotNumber(a);
    if a[0] == '\'' && |a| >= 2 && Initial(a[1]) {
      LifetimeIs(a, n);
    } else if Initial(a[0]) {
      IdentIs(a, n);
    } else if Digit(a[0]) {
      NumberIs(a, n);
    } else {
      OperatorIs(a, n);
    }
    CodeSwitch(a);
  }

  lemma CodeSwitch(a: string)
    requires a != ""
    ensures CodeLen(a) ==
            if LifetimeLen(a) > 0 then LifetimeLen(a)
            else if IdentLen(a) > 0 then IdentLen(a)
            else if NumberLen(a) > 0 then NumberLen(a)
            else if PunctLen(a) > 0 then PunctLen(a) else 1
  {
    hide LifetimeLen, IdentLen, NumberLen, PunctLen;
  }

  lemma NotLifetime(a: string)
    requires a != ""
    ensures LifetimeLen(a) > 0 <==> a[0] == '\'' && |a| >= 2 && Initial(a[1])
  {
    hide Run;
  }

  lemma NotIdent(a: string)
    requires a != ""
    ensures !Initial(a[0]) ==> IdentLen(a) == 0
  {
    hide Run;
    RawIdent(a);
  }

  lemma NotNumber(a: string)
    requires a != ""
    ensures !Digit(a[0]) ==> NumberLen(a) == 0
  {
    hide Run, DecimalLen;
  }
}
