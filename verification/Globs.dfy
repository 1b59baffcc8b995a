/** Shell patterns as `fnmatch.fnmatchcase` reads them: `*`, `?` and bracketed character sets. */
module Globs {
  import opened Prelude

  // The first `]` at or after index `i`.
  function Closing(p: string, i: nat): Option<nat>
    requires i <= |p|
    ensures Closing(p, i).Some? ==> i <= Closing(p, i).value < |p|
    decreases |p| - i
  {
    if i == |p| then None else if p[i] == ']' then Some(i) else Closing(p, i + 1)
  }

  // Where the set opened by `p[0]` ends: a `]` straight after `[` or `[!` is a member of the set.
  function SetEnd(p: string): (r: Option<nat>)
    requires p != "" && p[0] == '['
    ensures r.Some? ==> 1 < r.value < |p|
  {
    var i := if |p| > 1 && p[1] == '!' then 2 else 1;
    var j := if i < |p| && p[i] == ']' then i + 1 else i;
    Closing(p, j)
  }

  // Single characters and ranges, from left to right.
  predicate Member(set_: string, c: char) {
    if set_ == "" then false
    else if |set_| >= 3 && set_[1] == '-' then set_[0] <= c <= set_[2] || Member(set_[3..], c)
    else c == set_[0] || Member(set_[1..], c)
  }

  predicate InSet(body: string, c: char)
    requires body != ""
  {
    if body[0] == '!' then !Member(body[1..], c) else Member(body, c)
  }

  predicate Matches(s: string, p: string)
    decreases |p|
  {
    if p == "" then s == ""
    else if p[0] == '*' then exists k :: 0 <= k <= |s| && Matches(s[k..], p[1..])
    else if p[0] == '?' then s != "" && Matches(s[1..], p[1..])
    else if p[0] == '[' && SetEnd(p).Some? then
      s != "" && InSet(p[1..SetEnd(p).value], s[0]) && Matches(s[1..], p[SetEnd(p).value + 1..])
    else s != "" && s[0] == p[0] && Matches(s[1..], p[1..])
  }

  predicate Literal(p: string) { forall i :: 0 <= i < |p| ==> p[i] !in "*?[" }

  // A pattern without special characters matches itself only.
  lemma {:induction false} LiteralMatches(s: string, p: string)
    requires Literal(p)
    ensures Matches(s, p) <==> s == p
    decreases |p|
  {
    if p != "" && s != "" {
      LiteralMatches(s[1..], p[1..]);
      assert s == [s[0]] + s[1..] && p == [p[0]] + p[1..];
    }
  }

  lemma StarMatches(s: string)
    ensures Matches(s, "*")
  {
    assert Matches(s[|s|..], "*"[1..]);
  }

  predicate MatchesAny(s: string, patterns: seq<string>) {
    exists i :: 0 <= i < |patterns| && Matches(s, patterns[i])
  }
}
