/** The last "::" of a text: what stands before it and what stands after it. */
module LastCut {

  predicate Colons(text: string, i: nat) { i + 1 < |text| && text[i] == ':' && text[i + 1] == ':' }

  // Two colons at `i`, and none further on.
  ghost predicate IsLast(text: string, i: nat) { Colons(text, i) && forall j: nat :: i < j ==> !Colons(text, j) }

  ghost predicate NoColons(text: string) { forall j: nat :: !Colons(text, j) }

  ghost predicate Precedes(text: string, part: string) {
    if NoColons(text) then part == text else exists i: nat :: IsLast(text, i) && part == text[..i]
  }

  ghost predicate Follows(text: string, part: string) {
    if NoColons(text) then part == text else exists i: nat :: IsLast(text, i) && part == text[i + 2..]
  }

  // A name that cannot hold or complete a cut.
  ghost predicate Simple(name: string) { NoColons(name) && (name != "" ==> name[0] != ':') }

  lemma CutOnce(text: string, i: nat, j: nat)
    requires IsLast(text, i) && IsLast(text, j)
    ensures i == j
  {
    hide Colons;
  }

  // A path, a cut and a simple name.
  lemma Joined(path: string, name: string)
    requires Simple(name)
    ensures IsLast(path + "::" + name, |path|)
    ensures (path + "::" + name)[..|path|] == path && (path + "::" + name)[|path| + 2..] == name
  {
    var text := path + "::" + name;
    var i := |path|;
    assert text[i] == ':' && text[i + 1] == ':' && text[i + 2..] == name;
    forall j: nat | i < j ensures !Colons(text, j) {
      if j >= i + 2 && j + 1 < |text| {
        assert text[j] == name[j - i - 2] && text[j + 1] == name[j - i - 1];
        assert !Colons(name, j - i - 2);
      } else if j == i + 1 && j + 1 < |text| {
        assert text[j + 1] == name[0];
      }
    }
  }
}
