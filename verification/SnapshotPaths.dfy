/** Paths inside a kernel snapshot, and the check that keeps them under the declared roots. */
module SnapshotPaths {
  import opened Wrappers

  /** Where the first slash is, or the end. */
  function FirstSlash(name: string): (i: nat)
    ensures i <= |name|
    ensures forall j :: 0 <= j < i ==> name[j] != '/'
    ensures i < |name| ==> name[i] == '/'
  {
    if name == "" || name[0] == '/' then 0 else 1 + FirstSlash(name[1..])
  }

  function Components(name: string): (parts: seq<string>)
    ensures parts != []
    decreases |name|
  {
    var i := FirstSlash(name);
    if i == |name| then [name] else [name[..i]] + Components(name[i + 1..])
  }

  function Joined(parts: seq<string>): string {
    if parts == [] then ""
    else if |parts| == 1 then parts[0]
    else parts[0] + "/" + Joined(parts[1..])
  }

  /** The parts a `PurePosixPath` keeps. */
  function Kept(parts: seq<string>): (kept: seq<string>)
    ensures forall part :: part in kept <==> part in parts && part != "" && part != "."
  {
    if parts == [] then []
    else if parts[0] == "" || parts[0] == "." then Kept(parts[1..])
    else [parts[0]] + Kept(parts[1..])
  }

  predicate NothingToDrop(parts: seq<string>) {
    forall part <- parts :: part != "" && part != "."
  }

  /** `str(PurePosixPath(name))` of a relative path. */
  function Rendered(name: string): string {
    var kept := Kept(Components(name));
    if kept == [] then "." else Joined(kept)
  }

  predicate Under(name: string, root: string) {
    name == root || root + "/" <= name
  }

  predicate UnderAny(name: string, roots: seq<string>) {
    roots != [] && (Under(name, roots[0]) || UnderAny(name, roots[1..]))
  }

  /** What `checked_path` lets pass. */
  predicate CheckedPath(name: string, roots: seq<string>) {
    && !("/" <= name)
    && ".." !in Kept(Components(name))
    && Rendered(name) == name
    && UnderAny(name, roots)
  }

  /** Every component is the name of an entry. */
  predicate Proper(name: string) {
    forall part <- Components(name) :: part != "" && part != "." && part != ".."
  }

  // ---- Splitting and joining ----

  lemma OnePiece(name: string)
    requires '/' !in name
    ensures Components(name) == [name]
  {
    assert forall j :: 0 <= j < |name| ==> name[j] in name;
    assert FirstSlash(name) == |name|;
  }

  lemma FirstPiece(first: string, rest: string)
    requires '/' !in first
    ensures Components(first + "/" + rest) == [first] + Components(rest)
  {
    var name := first + "/" + rest;
    forall j | 0 <= j < |first|
      ensures name[j] != '/'
    {
      assert name[j] == first[j] && first[j] in first;
    }
    assert name[|first|] == '/';
    assert FirstSlash(name) == |first|;
    assert name[..|first|] == first && name[|first| + 1..] == rest;
  }

  lemma SplitAt(name: string, i: nat)
    requires i < |name| && name[i] == '/'
    ensures name == name[..i] + "/" + name[i + 1..]
  {
  }

  lemma SplitOnce(name: string)
    requires FirstSlash(name) < |name|
    ensures var i := FirstSlash(name);
            '/' !in name[..i] && name == name[..i] + "/" + name[i + 1..]
  {
    var i := FirstSlash(name);
    SplitAt(name, i);
    assert forall j :: 0 <= j < i ==> name[..i][j] == name[j];
  }

  lemma SlashTwice(a: string, b: string, c: string)
    ensures a + "/" + b + "/" + c == a + "/" + (b + "/" + c)
  {
  }

  lemma {:induction false} SlashSplits(a: string, b: string)
    ensures Components(a + "/" + b) == Components(a) + Components(b)
    decreases |a|
  {
    var i := FirstSlash(a);
    if i == |a| {
      FirstPiece(a, b);
    } else {
      var first, rest := a[..i], a[i + 1..];
      SplitOnce(a);
      SlashTwice(first, rest, b);
      FirstPiece(first, rest);
      FirstPiece(first, rest + "/" + b);
      SlashSplits(rest, b);
      Associative([first], Components(rest), Components(b));
    }
  }

  lemma JoinedPair(first: string, rest: seq<string>)
    requires rest != []
    ensures Joined([first] + rest) == first + "/" + Joined(rest)
  {
    assert ([first] + rest)[1..] == rest;
  }

  lemma {:induction false} JoinedComponents(name: string)
    ensures Joined(Components(name)) == name
    decreases |name|
  {
    var i := FirstSlash(name);
    if i == |name| {
    } else {
      SplitOnce(name);
      JoinedComponents(name[i + 1..]);
      JoinedPair(name[..i], Components(name[i + 1..]));
    }
  }

  lemma {:induction false} ComponentsJoined(parts: seq<string>)
    requires parts != [] && forall part <- parts :: '/' !in part
    ensures Components(Joined(parts)) == parts
  {
    assert parts == [parts[0]] + parts[1..];
    OnePiece(parts[0]);
    if |parts| == 1 {
    } else {
      ComponentsJoined(parts[1..]);
      FirstPiece(parts[0], Joined(parts[1..]));
    }
  }

  lemma {:induction false} NoSlashInside(name: string)
    ensures forall part <- Components(name) :: '/' !in part
    decreases |name|
  {
    var i := FirstSlash(name);
    if i == |name| {
    } else {
      NoSlashInside(name[i + 1..]);
    }
  }

  lemma {:induction false} AllKept(parts: seq<string>)
    ensures Kept(parts) == parts <==> NothingToDrop(parts)
  {
    if parts == [] {
    } else {
      AllKept(parts[1..]);
      assert parts == [parts[0]] + parts[1..];
      if NothingToDrop(parts) {
        assert forall part <- parts[1..] :: part in parts;
        assert parts[0] in parts;
      }
    }
  }

  lemma {:induction false} JoinedTwice(a: seq<string>, b: seq<string>)
    requires a != [] && b != []
    ensures Joined(a + b) == Joined(a) + "/" + Joined(b)
  {
    assert (a + b)[1..] == a[1..] + b;
    if |a| == 1 {
      assert a[1..] + b == b;
    } else {
      JoinedTwice(a[1..], b);
      assert a[0] + "/" + (Joined(a[1..]) + "/" + Joined(b)) == a[0] + "/" + Joined(a[1..]) + "/" + Joined(b);
    }
  }

  // ---- What the check means ----

  /** Text comparison with a root and a slash compares whole components. */
  lemma UnderExactly(name: string, root: string)
    ensures Under(name, root) <==> Components(root) <= Components(name)
  {
    if root + "/" <= name {
      var rest := name[|root| + 1..];
      assert name == root + "/" + rest;
      SlashSplits(root, rest);
    }
    if Components(root) <= Components(name) {
      JoinedComponents(name);
      JoinedComponents(root);
      var rest := Components(name)[|Components(root)|..];
      assert Components(name) == Components(root) + rest;
      if rest == [] {
        assert Components(name) == Components(root);
      } else {
        JoinedTwice(Components(root), rest);
      }
    }
  }

  /** A relative path is written canonically exactly when nothing in it would be dropped. */
  lemma CanonicalExactly(name: string)
    requires name != "."
    ensures Rendered(name) == name <==> NothingToDrop(Components(name))
  {
    var parts := Components(name);
    AllKept(parts);
    if Kept(parts) == parts {
      JoinedComponents(name);
      assert Rendered(name) == Joined(parts);
    }
    if Rendered(name) == name {
      NoSlashInside(name);
      assert Kept(parts) != [];
      ComponentsJoined(Kept(parts));
      assert name == Joined(Kept(parts));
    }
  }

  lemma DotIsNotUnder(root: string)
    requires Proper(root)
    ensures !Under(".", root)
  {
    OnePiece(".");
    UnderExactly(".", root);
    assert Components(root)[0] in Components(root);
  }

  lemma {:induction false} UnderAnyExactly(name: string, roots: seq<string>)
    ensures UnderAny(name, roots) <==> exists root <- roots :: Under(name, root)
  {
    if roots == [] {
    } else {
      UnderAnyExactly(name, roots[1..]);
      assert roots == [roots[0]] + roots[1..];
    }
  }

  /** Exactly the paths of proper components that start with all of a root's components pass. */
  lemma CheckedPathExactly(name: string, roots: seq<string>)
    requires forall root <- roots :: Proper(root)
    ensures CheckedPath(name, roots)
       <==> Proper(name) && exists root <- roots :: Components(root) <= Components(name)
  {
    UnderAnyExactly(name, roots);
    forall root | root in roots
      ensures Under(name, root) <==> Components(root) <= Components(name)
    {
      UnderExactly(name, root);
    }
    if name == "." {
      OnePiece(".");
      forall root | root in roots
        ensures !Under(name, root)
      {
        DotIsNotUnder(root);
      }
    } else {
      CanonicalExactly(name);
      ProperExactly(name);
    }
  }

  lemma ProperExactly(name: string)
    ensures Proper(name)
       <==> && !("/" <= name)
            && ".." !in Kept(Components(name))
            && NothingToDrop(Components(name))
  {
    assert Components(name)[0] in Components(name);
    assert Components(name)[0] == name[..FirstSlash(name)];
    if "/" <= name {
      assert name[..FirstSlash(name)] == "";
    }
  }

  /** Where following `parts` from a directory leads; nowhere if it climbs out of it. */
  function Walk(at: seq<string>, parts: seq<string>): Option<seq<string>>
    decreases |parts|
  {
    if parts == [] then Some(at)
    else if parts[0] == "" || parts[0] == "." then Walk(at, parts[1..])
    else if parts[0] == ".." then if at == [] then None else Walk(at[..|at| - 1], parts[1..])
    else Walk(at + [parts[0]], parts[1..])
  }

  lemma {:induction false} ProperWalk(at: seq<string>, parts: seq<string>)
    requires forall part <- parts :: part != "" && part != "." && part != ".."
    ensures Walk(at, parts) == Some(at + parts)
    decreases |parts|
  {
    if parts == [] {
      assert at + parts == at;
    } else {
      assert parts[0] in parts && forall part <- parts[1..] :: part in parts;
      ProperWalk(at + [parts[0]], parts[1..]);
      assert at + [parts[0]] + parts[1..] == at + parts;
    }
  }

  /** A path that passes leads, from the snapshot's directory, to a place under a root. */
  lemma CheckedPathStaysInside(name: string, roots: seq<string>)
    requires forall root <- roots :: Proper(root)
    requires CheckedPath(name, roots)
    ensures Walk([], Components(name)) == Some(Components(name))
    ensures exists root <- roots :: Components(root) <= Components(name)
  {
    CheckedPathExactly(name, roots);
    ProperWalk([], Components(name));
    assert [] + Components(name) == Components(name);
  }

}
