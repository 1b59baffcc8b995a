/** What a shell pattern matches, item by item. */
module GlobItems {
  import opened Prelude
  import opened Globs

  datatype Part = Single(c: char) | Range(lo: char, hi: char)

  datatype Item = Any | One | Exact(c: char) | Set(negated: bool, parts: seq<Part>)

  predicate In(parts: seq<Part>, c: char) {
    exists i :: 0 <= i < |parts| && match parts[i] case Single(d) => c == d case Range(lo, hi) => lo <= c && c <= hi
  }

  // Whether an item takes exactly the text `s`.
  predicate Takes(item: Item, s: string) {
    match item
    case Any => true
    case One => |s| == 1
    case Exact(c) => s == [c]
    case Set(negated, parts) => |s| == 1 && (In(parts, s[0]) != negated)
  }

  // The text is cut into pieces that the items take, in order.
  ghost predicate TakesAll(items: seq<Item>, s: string) {
    if items == [] then s == ""
    else exists n :: 0 <= n <= |s| && Takes(items[0], s[..n]) && TakesAll(items[1..], s[n..])
  }

  /* ---- Writing items down ---- */

  function ShowPart(part: Part): string { match part case Single(c) => [c] case Range(lo, hi) => [lo, '-', hi] }

  function ShowParts(parts: seq<Part>): string {
    if parts == [] then "" else ShowPart(parts[0]) + ShowParts(parts[1..])
  }

  function Show(item: Item): string {
    match item
    case Any => "*"
    case One => "?"
    case Exact(c) => [c]
    case Set(negated, parts) => "[" + (if negated then "!" else "") + (ShowParts(parts) + "]")
  }

  function ShowAll(items: seq<Item>): string {
    if items == [] then "" else Show(items[0]) + ShowAll(items[1..])
  }

  // A set can be written down: no `]` but as its first character, no `!` as the first of a plain
  // set, and no single character before a hyphen that is not the last.
  predicate Writable(negated: bool, parts: seq<Part>) {
    var body := ShowParts(parts);
    && parts != [] && (negated || body[0] != '!')
    && (forall i :: 1 <= i < |body| ==> body[i] != ']')
    && Separate(parts)
  }

  predicate Separate(parts: seq<Part>) {
    if |parts| < 2 then true
    else
      && (parts[0].Single? && ShowPart(parts[1])[0] == '-' ==> parts[1] == Single('-') && |parts| == 2)
      && Separate(parts[1..])
  }

  predicate Plain(item: Item) {
    match item
    case Exact(c) => c != '*' && c != '?' && c != '['
    case Set(negated, parts) => Writable(negated, parts)
    case _ => true
  }

  /* ---- Reading a set ---- */

  lemma {:induction false} MembersRead(parts: seq<Part>, c: char)
    requires Separate(parts)
    ensures Member(ShowParts(parts), c) <==> In(parts, c)
  {
    if parts != [] {
      var rest := parts[1..];
      MembersRead(rest, c);
      InSplit(parts, c);
      var body, more := ShowParts(parts), ShowParts(rest);
      match parts[0] {
        case Range(lo, hi) =>
          assert body[3..] == more && body[0] == lo && body[1] == '-' && body[2] == hi;
        case Single(d) =>
          assert body[1..] == more && body[0] == d;
          if rest != [] { FirstShown(rest); }
      }
    }
  }

  lemma FirstShown(parts: seq<Part>)
    requires parts != []
    ensures ShowParts(parts) != "" && ShowParts(parts)[0] == ShowPart(parts[0])[0]
    ensures parts == [Single('-')] ==> |ShowParts(parts)| == 1
  {
  }

  lemma InSplit(parts: seq<Part>, c: char)
    requires parts != []
    ensures In(parts, c) <==> In(parts[..1], c) || In(parts[1..], c)
  {
    var rest := parts[1..];
    assert forall i :: 0 <= i < |rest| ==> rest[i] == parts[i + 1];
    assert parts[..1][0] == parts[0];
    if In(parts, c) {
      var i :| 0 <= i < |parts| && match parts[i] case Single(d) => c == d case Range(lo, hi) => lo <= c && c <= hi;
      if i > 0 { assert rest[i - 1] == parts[i]; }
    }
  }

  lemma {:induction false} ClosingIs(p: string, i: nat, k: nat)
    requires i <= k < |p| && p[k] == ']' && forall j :: i <= j < k ==> p[j] != ']'
    ensures Closing(p, i) == Some(k)
    decreases k - i
  {
    if i < k { ClosingIs(p, i + 1, k); }
  }

  // A bracket, a head, a body without `]` but at its start, a closing bracket and the rest.
  lemma BodyRead(head: string, body: string, rest: string)
    requires head == "" || head == "!"
    requires body != "" && (head == "" ==> body[0] != '!') && forall i :: 1 <= i < |body| ==> body[i] != ']'
    ensures var p, k := "[" + (head + (body + ("]" + rest))), 1 + |head| + |body|;
            && k < |p| && SetEnd(p) == Some(k) && p[k + 1..] == rest && p[1..k] == head + body
  {
    var p, i, k := "[" + (head + (body + ("]" + rest))), 1 + |head|, 1 + |head| + |body|;
    Chars(head, body, rest);
    ClosingIs(p, if body[0] == ']' then i + 1 else i, k);
  }

  lemma Chars(head: string, body: string, rest: string)
    ensures var p, i, k := "[" + (head + (body + ("]" + rest))), 1 + |head|, 1 + |head| + |body|;
            && k < |p| && p[0] == '[' && p[k] == ']' && p[k + 1..] == rest && p[1..k] == head + body
            && (forall j :: i <= j < k ==> p[j] == body[j - i]) && (head != "" ==> p[1] == head[0])
  {
    var p, i, k := "[" + (head + (body + ("]" + rest))), 1 + |head|, 1 + |head| + |body|;
    assert p[1..] == head + (body + ("]" + rest));
    assert p[i..] == body + ("]" + rest);
  }

  lemma SetRead(negated: bool, parts: seq<Part>, rest: string)
    requires Writable(negated, parts)
    ensures var p := Show(Set(negated, parts)) + rest;
            var k := |Show(Set(negated, parts))| - 1;
            && 0 <= k < |p| && p[0] == '[' && SetEnd(p) == Some(k) && p[k + 1..] == rest
            && p[1..k] == (if negated then "!" else "") + ShowParts(parts)
  {
    hide Separate, SetEnd, ShowParts;
    var head, body := if negated then "!" else "", ShowParts(parts);
    FirstShown(parts);
    BodyRead(head, body, rest);
    Reassoc(head, body, rest);
  }

  lemma Reassoc(head: string, body: string, rest: string)
    ensures "[" + head + (body + "]") + rest == "[" + (head + (body + ("]" + rest)))
  {
  }

  lemma SetMeans(negated: bool, parts: seq<Part>, c: char)
    requires Writable(negated, parts)
    ensures InSet((if negated then "!" else "") + ShowParts(parts), c) <==> In(parts, c) != negated
  {
    MembersRead(parts, c);
    FirstShown(parts);
    var body := (if negated then "!" else "") + ShowParts(parts);
    if negated { assert body[1..] == ShowParts(parts); } else { assert body == ShowParts(parts); }
  }

  /* ---- Matching ---- */

  lemma OnePiece(item: Item, items: seq<Item>, s: string)
    requires !item.Any?
    ensures TakesAll([item] + items, s) <==> s != "" && Takes(item, s[..1]) && TakesAll(items, s[1..])
  {
    assert ([item] + items)[1..] == items;
    if s != "" && Takes(item, s[..1]) && TakesAll(items, s[1..]) { assert TakesAll([item] + items, s); }
  }

  lemma SetMatches(negated: bool, parts: seq<Part>, rest: string, s: string)
    requires Writable(negated, parts)
    ensures Matches(s, Show(Set(negated, parts)) + rest) <==>
            s != "" && Takes(Set(negated, parts), s[..1]) && Matches(s[1..], rest)
  {
    hide Writable, ShowParts, SetEnd, InSet, In;
    SetRead(negated, parts, rest);
    if s != "" { SetMeans(negated, parts, s[0]); }
  }

  lemma {:induction false} ItemsMatch(items: seq<Item>, s: string)
    requires forall i :: 0 <= i < |items| ==> Plain(items[i])
    ensures Matches(s, ShowAll(items)) <==> TakesAll(items, s)
    decreases |items|, |s|
  {
    hide Matches, TakesAll, Plain, Takes;
    if items == [] {
      NothingMatches(s);
    } else {
      var item, rest := items[0], items[1..];
      assert items == [item] + rest;
      forall x ensures Matches(x, ShowAll(rest)) <==> TakesAll(rest, x) { ItemsMatch(rest, x); }
      if item.Any? {
        AnyMatches(rest, s);
      } else {
        OnePiece(item, rest, s);
        ItemMatches(item, ShowAll(rest), s);
      }
    }
  }

  lemma NothingMatches(s: string)
    ensures Matches(s, "") <==> TakesAll([], s)
  {
  }

  lemma AnyMatches(rest: seq<Item>, s: string)
    requires forall x :: Matches(x, ShowAll(rest)) <==> TakesAll(rest, x)
    ensures Matches(s, "*" + ShowAll(rest)) <==> TakesAll([Any] + rest, s)
  {
    var p := "*" + ShowAll(rest);
    assert p[1..] == ShowAll(rest) && ([Any] + rest)[1..] == rest;
    StarTakes(s, ShowAll(rest));
    if TakesAll([Any] + rest, s) {
      var n :| 0 <= n <= |s| && TakesAll(rest, s[n..]);
      assert Matches(s[n..], ShowAll(rest));
    }
    if k :| 0 <= k <= |s| && Matches(s[k..], ShowAll(rest)) {
      assert TakesAll(rest, s[k..]) && Takes(Any, s[..k]);
    }
  }

  lemma StarTakes(s: string, rest: string)
    ensures Matches(s, "*" + rest) <==> exists k :: 0 <= k <= |s| && Matches(s[k..], rest)
  {
    assert ("*" + rest)[1..] == rest;
  }

  lemma ItemMatches(item: Item, rest: string, s: string)
    requires Plain(item) && !item.Any?
    ensures Matches(s, Show(item) + rest) <==> s != "" && Takes(item, s[..1]) && Matches(s[1..], rest)
  {
    match item
    case Set(negated, parts) => SetMatches(negated, parts, rest, s);
    case One => assert ("?" + rest)[1..] == rest;
    case Exact(c) =>
      assert ([c] + rest)[1..] == rest;
      if s != "" { assert s[..1] == [s[0]]; }
  }

  /** A pattern matches exactly the texts that its items take, piece by piece. */
  lemma PatternMeans(items: seq<Item>)
    requires forall i :: 0 <= i < |items| ==> Plain(items[i])
    ensures forall s :: Matches(s, ShowAll(items)) <==> TakesAll(items, s)
  {
    hide Matches, TakesAll, Plain;
    forall s ensures Matches(s, ShowAll(items)) <==> TakesAll(items, s) { ItemsMatch(items, s); }
  }

  // An opening bracket that nothing closes stands for itself.
  lemma {:induction false} NeverClosed(p: string, i: nat)
    requires i <= |p| && forall j :: i <= j < |p| ==> p[j] != ']'
    ensures Closing(p, i) == None
    decreases |p| - i
  {
    if i < |p| { NeverClosed(p, i + 1); }
  }

  lemma OpenBracket(rest: string, s: string)
    requires forall j :: 0 <= j < |rest| ==> rest[j] != ']'
    ensures Matches(s, "[" + rest) <==> s != "" && s[0] == '[' && Matches(s[1..], rest)
  {
    var p := "[" + rest;
    assert p[1..] == rest && forall j :: 1 <= j < |p| ==> p[j] != ']';
    NeverClosed(p, 1);
    if |p| > 1 { NeverClosed(p, 2); }
  }
}
