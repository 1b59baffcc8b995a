/** Expanding a grouped `use` tree into its paths (`_use_paths` in
    `scripts/_rust_equivalence.py`), and printing one. */
module UseTrees {
  import opened Prelude
  import RustTokens
  import CodeTokens

  // `_IDENT.fullmatch`
  predicate IsIdent(token: string) { token != [] && RustTokens.IdentLen(token) == |token| }

  datatype Leaf = Leaf(path: seq<string>, alias: Option<string>)

  datatype UseError =
    UnresolvedGroup | UnclosedGroup | InvalidAlias | UnsupportedPath | EmptyPath | UnresolvedSuffix

  // What a walk leaves to read and what it appended to the result.
  datatype Walked = Walked(rest: seq<string>, leaves: seq<Leaf>)

  function Finish(tokens: seq<string>, path: seq<string>): Result<Walked, UseError> {
    if path == [] then Err(EmptyPath) else Ok(Walked(tokens, [Leaf(path, None)]))
  }

  // `first` says that no token of the tree has been read.
  function WalkPath(first: bool, tokens: seq<string>, path: seq<string>): (r: Result<Walked, UseError>)
    ensures r.Ok? ==> |r.value.rest| <= |tokens|
    ensures r.Ok? && tokens != [] && tokens[0] != "," && tokens[0] != "}" ==> |r.value.rest| < |tokens|
    decreases |tokens|, 0
  {
    if tokens == [] then Finish(tokens, path)
    else
      var token := tokens[0];
      if token == "::" then
        WalkPath(false, tokens[1..], if first && path == [] then ["::"] else path)
      else if token == "{" then WalkGroup(tokens[1..], path)
      else if token == "," || token == "}" then Finish(tokens, path)
      else if token == "as" then
        if |tokens| == 1 || !IsIdent(tokens[1]) then Err(InvalidAlias)
        else Ok(Walked(tokens[2..], [Leaf(path, Some(tokens[1]))]))
      else if IsIdent(token) || token == "*" then WalkPath(false, tokens[1..], path + [token])
      else Err(UnsupportedPath)
  }

  function Prepend(leaves: seq<Leaf>, r: Result<Walked, UseError>): Result<Walked, UseError> {
    match r
    case Err(e) => Err(e)
    case Ok(w) => Ok(Walked(w.rest, leaves + w.leaves))
  }

  // A group after its opening brace.
  function WalkGroup(tokens: seq<string>, path: seq<string>): (r: Result<Walked, UseError>)
    ensures r.Ok? ==> |r.value.rest| < |tokens|
    decreases |tokens|, 1
  {
    if tokens == [] then Err(UnclosedGroup)
    else if tokens[0] == "}" then Ok(Walked(tokens[1..], []))
    else
      match WalkPath(false, tokens, path)
      case Err(e) => Err(e)
      case Ok(w) =>
        if w.rest == [] then Err(UnclosedGroup)
        else if w.rest[0] == "," then Prepend(w.leaves, WalkGroup(w.rest[1..], path))
        else if w.rest[0] != "}" then Err(UnresolvedGroup)
        else Ok(Walked(w.rest[1..], w.leaves))
  }

  function UsePaths(tree: seq<string>): Result<seq<Leaf>, UseError> {
    match WalkPath(true, tree, [])
    case Err(e) => Err(e)
    case Ok(w) => if w.rest == [] then Ok(w.leaves) else Err(UnresolvedSuffix)
  }

  /* ---- The walk over a shared position ---- */

  class Walker {
    const tree: seq<string>
    var i: nat
    var result: seq<Leaf>

    constructor (tree: seq<string>)
      ensures this.tree == tree && i == 0 && result == []
    {
      this.tree := tree;
      i, result := 0, [];
    }

    // The state after a walk that started at `start` with result `before`.
    ghost predicate Reached(r: Result<Walked, UseError>, before: seq<Leaf>, error: Option<UseError>)
      reads this
    {
      match r
      case Err(e) => error == Some(e)
      case Ok(w) => error == None && i <= |tree| && tree[i..] == w.rest && result == before + w.leaves
    }

    method Walk(prefix: seq<string>) returns (error: Option<UseError>)
      requires i <= |tree|
      modifies this
      ensures old(i) <= i <= |tree|
      ensures Reached(WalkPath(old(i) == 0, tree[old(i)..], prefix), old(result), error)
      decreases |tree| - i, 0
    {
      hide IsIdent, WalkGroup;
      var path := prefix;
      ghost var whole := WalkPath(i == 0, tree[i..], prefix);
      while i < |tree|
        invariant old(i) <= i <= |tree| && result == old(result)
        invariant whole == WalkPath(i == 0, tree[i..], path)
        decreases |tree| - i
      {
        var token := tree[i];
        assert tree[i..][1..] == tree[i + 1..];
        if token == "::" {
          if i == 0 && path == [] {
            path := path + ["::"];
            assert path == ["::"];
          }
          i := i + 1;
        } else if token == "{" {
          i := i + 1;
          error := Group(path);
          return;
        } else if token == "," || token == "}" {
          break;
        } else if token == "as" {
          i := i + 1;
          if i >= |tree| || !IsIdent(tree[i]) {
            return Some(InvalidAlias);
          }
          assert tree[i - 1..][2..] == tree[i + 1..];
          var alias := tree[i];
          i := i + 1;
          result := result + [Leaf(path, Some(alias))];
          return None;
        } else if IsIdent(token) || token == "*" {
          path := path + [token];
          i := i + 1;
        } else {
          return Some(UnsupportedPath);
        }
      }
      if path == [] {
        return Some(EmptyPath);
      }
      result := result + [Leaf(path, None)];
      error := None;
    }

    // The inner loop, from the token after the opening brace.
    method Group(path: seq<string>) returns (error: Option<UseError>)
      requires 0 < i <= |tree|
      modifies this
      ensures old(i) <= i <= |tree|
      ensures Reached(WalkGroup(tree[old(i)..], path), old(result), error)
      decreases |tree| - i, 1
    {
      hide WalkPath, WalkGroup;
      ghost var whole := WalkGroup(tree[i..], path);
      ghost var done: seq<Leaf> := [];
      Nothing(whole);
      while i < |tree| && tree[i] != "}"
        invariant old(i) <= i <= |tree| && result == old(result) + done
        invariant whole == Prepend(done, WalkGroup(tree[i..], path))
        decreases |tree| - i
      {
        ghost var tokens, before := tree[i..], done;
        ghost var walked := WalkPath(false, tokens, path);
        GroupTurn(tokens, path);
        error := Walk(path);
        if error.Some? {
          return;
        }
        done := done + walked.value.leaves;
        if i < |tree| && tree[i] == "," {
          assert tree[i..][1..] == tree[i + 1..];
          i := i + 1;
        } else if i < |tree| && tree[i] != "}" {
          return Some(UnresolvedGroup);
        }
        Twice(before, walked.value.leaves, WalkGroup(tree[i..], path));
      }
      GroupEnd(tree[i..], path);
      if i >= |tree| {
        return Some(UnclosedGroup);
      }
      assert tree[i..][1..] == tree[i + 1..];
      i := i + 1;
      error := None;
    }
  }

  lemma Nothing(r: Result<Walked, UseError>)
    ensures Prepend([], r) == r
  {
    if r.Ok? { assert [] + r.value.leaves == r.value.leaves; }
  }

  lemma Twice(xs: seq<Leaf>, ys: seq<Leaf>, r: Result<Walked, UseError>)
    ensures Prepend(xs, Prepend(ys, r)) == Prepend(xs + ys, r)
  {
    if r.Ok? { assert xs + (ys + r.value.leaves) == (xs + ys) + r.value.leaves; }
  }

  lemma GroupEnd(tokens: seq<string>, path: seq<string>)
    ensures tokens == [] ==> WalkGroup(tokens, path) == Err(UnclosedGroup)
    ensures tokens != [] && tokens[0] == "}" ==> WalkGroup(tokens, path) == Ok(Walked(tokens[1..], []))
  {
  }

  // The group after a walk of one member.
  function AfterMember(r: Result<Walked, UseError>, path: seq<string>): Result<Walked, UseError> {
    if r.Err? then r
    else
      var rest := r.value.rest;
      if rest != [] && rest[0] == "," then Prepend(r.value.leaves, WalkGroup(rest[1..], path))
      else if rest != [] && rest[0] != "}" then Err(UnresolvedGroup)
      else Prepend(r.value.leaves, WalkGroup(rest, path))
  }

  // One turn of the group's loop.
  lemma GroupTurn(tokens: seq<string>, path: seq<string>)
    requires tokens != [] && tokens[0] != "}"
    ensures WalkGroup(tokens, path) == AfterMember(WalkPath(false, tokens, path), path)
    ensures var r := WalkPath(false, tokens, path);
            r.Ok? && tokens[0] != "," ==> |r.value.rest| < |tokens|
  {
    hide WalkPath;
    var r := WalkPath(false, tokens, path);
    if r.Ok? {
      GroupEnd(r.value.rest, path);
      assert r.value.leaves + [] == r.value.leaves;
    }
  }

  /** `_use_paths`: the leaf paths of the tree, or that it raises. */
  method ExpandUse(tree: seq<string>) returns (r: Result<seq<Leaf>, UseError>)
    ensures r == UsePaths(tree)
  {
    var walker := new Walker(tree);
    assert tree[0..] == tree;
    var error := walker.Walk([]);
    ghost var walked := WalkPath(true, tree, []);
    if walked.Ok? { assert [] + walked.value.leaves == walked.value.leaves; }
    if error.Some? {
      r := Err(error.value);
    } else if walker.i != |tree| {
      r := Err(UnresolvedSuffix);
    } else {
      r := Ok(walker.result);
    }
  }

  /* ---- Printing a tree ---- */

  datatype UseTree =
    | Name(segments: seq<string>, alias: Option<string>)
    | Group(segments: seq<string>, members: seq<UseTree>, comma: bool)

  predicate IsSegment(token: string) { token == "*" || (IsIdent(token) && token != "as") }

  predicate WellFormed(t: UseTree) {
    (forall i :: 0 <= i < |t.segments| ==> IsSegment(t.segments[i])) &&
    match t
    case Name(segments, alias) => segments != [] && (alias.Some? ==> IsIdent(alias.value))
    case Group(_, members, comma) =>
      (comma ==> members != []) && forall i :: 0 <= i < |members| ==> WellFormed(members[i])
  }

  function PrintPath(segments: seq<string>): seq<string> {
    if segments == [] then []
    else if |segments| == 1 then segments
    else [segments[0], "::"] + PrintPath(segments[1..])
  }

  function Print(t: UseTree): seq<string>
    decreases t, 1
  {
    match t
    case Name(segments, alias) =>
      PrintPath(segments) + (match alias case None => [] case Some(a) => ["as", a])
    case Group(segments, members, comma) =>
      PrintPath(segments) + (if segments == [] then [] else ["::"])
      + (["{"] + (PrintMembers(members, comma) + ["}"]))
  }

  function PrintMembers(members: seq<UseTree>, comma: bool): seq<string>
    decreases members, 0
  {
    if members == [] then []
    else if |members| == 1 then Print(members[0]) + (if comma then [","] else [])
    else Print(members[0]) + ([","] + PrintMembers(members[1..], comma))
  }

  function Leaves(t: UseTree, prefix: seq<string>): seq<Leaf>
    decreases t, 1
  {
    match t
    case Name(segments, alias) => [Leaf(prefix + segments, alias)]
    case Group(segments, members, _) => AllLeaves(members, prefix + segments)
  }

  function AllLeaves(members: seq<UseTree>, prefix: seq<string>): seq<Leaf>
    decreases members, 0
  {
    if members == [] then [] else Leaves(members[0], prefix) + AllLeaves(members[1..], prefix)
  }

  /* ---- Parsing what was printed ---- */

  // What can follow a tree.
  predicate IsStop(rest: seq<string>) { rest == [] || rest[0] == "," || rest[0] == "}" }

  lemma SegmentToken(token: string)
    requires IsSegment(token)
    ensures token !in ["::", "{", ",", "}", "as"] && (IsIdent(token) || token == "*")
  {
  }

  lemma {:induction false} WalkSegments(first: bool, segments: seq<string>, tail: seq<string>, path: seq<string>)
    requires segments != [] && forall i :: 0 <= i < |segments| ==> IsSegment(segments[i])
    ensures WalkPath(first, PrintPath(segments) + tail, path) == WalkPath(false, tail, path + segments)
    decreases |segments|
  {
    hide IsSegment, IsIdent, WalkPath;
    if |segments| == 1 {
      WalkSegment(first, segments[0], tail, path);
      assert PrintPath(segments) + tail == [segments[0]] + tail && [segments[0]] == segments;
    } else {
      var more := PrintPath(segments[1..]) + tail;
      WalkSegment(first, segments[0], ["::"] + more, path);
      WalkColons(more, path + [segments[0]]);
      WalkSegments(false, segments[1..], tail, path + [segments[0]]);
      assert PrintPath(segments) + tail == [segments[0]] + (["::"] + more);
      assert (path + [segments[0]]) + segments[1..] == path + segments;
    }
  }

  lemma WalkSegment(first: bool, token: string, rest: seq<string>, path: seq<string>)
    requires IsSegment(token)
    ensures WalkPath(first, [token] + rest, path) == WalkPath(false, rest, path + [token])
  {
    hide IsIdent;
    SegmentToken(token);
    assert ([token] + rest)[1..] == rest;
  }

  lemma WalkColons(rest: seq<string>, path: seq<string>)
    ensures WalkPath(false, ["::"] + rest, path) == WalkPath(false, rest, path)
  {
    hide IsIdent;
    assert (["::"] + rest)[1..] == rest;
  }

  lemma PrintStart(t: UseTree)
    requires WellFormed(t)
    ensures Print(t) != [] && Print(t)[0] != "," && Print(t)[0] != "}" && Print(t)[0] != "::"
  {
    hide IsIdent;
    if t.segments != [] { SegmentToken(t.segments[0]); }
  }

  lemma {:induction false} WalkPrinted(first: bool, t: UseTree, rest: seq<string>, path: seq<string>)
    requires WellFormed(t) && IsStop(rest)
    ensures WalkPath(first, Print(t) + rest, path) == Ok(Walked(rest, Leaves(t, path)))
    decreases t, 1
  {
    hide IsIdent;
    match t
    case Name(segments, alias) =>
      var tail := (match alias case None => [] case Some(a) => ["as", a]);
      assert Print(t) + rest == PrintPath(segments) + (tail + rest);
      WalkSegments(first, segments, tail + rest, path);
      WalkTail(alias, rest, path + segments);
    case Group(segments, members, comma) =>
      WalkMembers(members, comma, rest, path + segments);
      WalkOpen(first, t, rest, path);
  }

  lemma WalkOpen(first: bool, t: UseTree, rest: seq<string>, path: seq<string>)
    requires t.Group? && (forall i :: 0 <= i < |t.segments| ==> IsSegment(t.segments[i]))
    ensures WalkPath(first, Print(t) + rest, path)
         == WalkGroup(PrintMembers(t.members, t.comma) + (["}"] + rest), path + t.segments)
  {
    hide IsIdent, WalkGroup, PrintPath, PrintMembers;
    var body, segments := PrintMembers(t.members, t.comma), t.segments;
    var open := ["{"] + (body + (["}"] + rest));
    assert open[1..] == body + (["}"] + rest);
    if segments == [] {
      NoSegments();
      assert Print(t) + rest == open && path + segments == path;
    } else {
      assert Print(t) + rest == PrintPath(segments) + (["::"] + open);
      WalkSegments(first, segments, ["::"] + open, path);
      assert (["::"] + open)[1..] == open;
    }
  }

  lemma NoSegments()
    ensures PrintPath([]) == []
  {
  }

  lemma WalkTail(alias: Option<string>, rest: seq<string>, path: seq<string>)
    requires path != [] && IsStop(rest) && (alias.Some? ==> IsIdent(alias.value))
    ensures var tail := (match alias case None => [] case Some(a) => ["as", a]);
            WalkPath(false, tail + rest, path) == Ok(Walked(rest, [Leaf(path, alias)]))
  {
    hide IsIdent;
    match alias
    case None => assert [] + rest == rest;
    case Some(a) => assert (["as", a] + rest)[2..] == rest;
  }

  lemma {:induction false} WalkMembers(members: seq<UseTree>, comma: bool, rest: seq<string>, path: seq<string>)
    requires (forall i :: 0 <= i < |members| ==> WellFormed(members[i])) && (comma ==> members != [])
    ensures WalkGroup(PrintMembers(members, comma) + (["}"] + rest), path) == Ok(Walked(rest, AllLeaves(members, path)))
    decreases members, 0
  {
    hide WalkPath, WalkGroup, WellFormed, Print;
    var close := ["}"] + rest;
    assert close[1..] == rest;
    GroupEnd(close, path);
    if members == [] {
      assert [] + close == close;
    } else {
      var t, later := members[0], members[1..];
      var more := (if later == [] && !comma then [] else [","]) + (PrintMembers(later, comma && later != []) + close);
      MembersSplit(members, comma, close);
      PrintStart(t);
      WalkMembers(later, comma && later != [], rest, path);
      WalkPrinted(false, t, more, path);
      GroupTurn(Print(t) + more, path);
      assert later != [] || comma ==> more[1..] == PrintMembers(later, comma && later != []) + close;
      assert later == [] && !comma ==> more == close;
    }
  }

  // The first member, what separates it, and the others; a trailing comma stays behind.
  lemma MembersSplit(members: seq<UseTree>, comma: bool, close: seq<string>)
    requires members != []
    ensures var later := members[1..];
            PrintMembers(members, comma) + close
            == Print(members[0])
               + ((if later == [] && !comma then [] else [","]) + (PrintMembers(later, comma && later != []) + close))
  {
  }

  /** Printing any tree and expanding it gives exactly its leaf paths with their full
      prefixes, in order; a leading `::` becomes the first element of each. */
  lemma PrintExpands(t: UseTree, leading: bool)
    requires WellFormed(t)
    ensures UsePaths((if leading then ["::"] else []) + Print(t)) == Ok(Leaves(t, if leading then ["::"] else []))
  {
    hide WellFormed;
    var tokens := Print(t);
    assert tokens + [] == tokens;
    if leading {
      assert (["::"] + tokens)[1..] == tokens;
      WalkPrinted(false, t, [], ["::"]);
    } else {
      assert [] + tokens == tokens;
      WalkPrinted(true, t, [], []);
    }
  }

  // An identifier, raw or not, and nothing behind it.
  lemma IdentMeans(token: string)
    ensures IsIdent(token) <==> token != "" && CodeTokens.Initial(token[0]) && CodeTokens.IdentAt(token, |token|)
  {
    hide RustTokens.IdentLen, CodeTokens.IdentAt;
    if token != "" {
      CodeTokens.NotIdent(token);
      if CodeTokens.Initial(token[0]) { CodeTokens.IdentIs(token, |token|); }
    }
  }
}
