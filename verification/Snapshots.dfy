/** Kernel snapshots: a directory of files with an ORIGIN.json that names every one, and the
    check that the two agree. */
module Snapshots {
  import opened Wrappers
  import opened Bytes
  import opened SnapshotPaths

  // ---- What is on disk ----

  datatype File = File(content: seq<byte>, executable: bool)

  /** What is not a directory below a snapshot: a symbolic link leads to a file or does not. */
  datatype Node = Regular(file: File) | Link(target: Option<File>) | Special

  type Tree = map<string, Node>

  /** `linked` when the path given for the snapshot is itself a symbolic link. */
  datatype Snapshot = Snapshot(linked: bool, nodes: Tree)

  const ORIGIN := "ORIGIN.json"
  const PLAIN := "100644"
  const EXECUTABLE := "100755"

  // ---- The metadata ----

  datatype Json =
    | Null
    | Text(text: string)
    | List(items: seq<Json>)
    | Object(fields: map<string, Json>)
    | OtherJson

  /** A JSON document: the fields looked at when it is an object, `Null` for one that is absent;
      the modes alone are also looked up in a way that tells the two apart. */
  datatype Document =
    | NotObject
    | Metadata(repository: Json, commit: Json, paths: Json, files: Json, fileModes: Option<Json>)

  /** What a check goes by: the roots and repository it is built with, the digest, and how JSON
      is read. */
  datatype Rules = Rules(
    sources: seq<string>,
    inputs: seq<string>,
    repository: string,
    digest: seq<byte> -> string,
    load: seq<byte> -> Option<Document>)

  predicate ProperRules(rules: Rules) {
    && (forall root <- rules.sources :: root in rules.inputs)
    && (forall root <- rules.inputs :: Proper(root))
    && rules.inputs != [] && !UnderAny(ORIGIN, rules.inputs)
  }

  function Texts(texts: seq<string>): (r: Json)
    ensures r.List? && |r.items| == |texts|
    ensures forall i :: 0 <= i < |texts| ==> r.items[i] == Text(texts[i])
  {
    List(seq(|texts|, i requires 0 <= i < |texts| => Text(texts[i])))
  }

  predicate IsHex(s: string, digits: nat) {
    |s| == digits && forall c <- s :: '0' <= c <= '9' || 'a' <= c <= 'f'
  }

  predicate IsCommit(s: string) {
    IsHex(s, 40) || IsHex(s, 64)
  }

  predicate IsLegacy(data: Document, rules: Rules, allowLegacy: bool)
    requires data.Metadata?
  {
    allowLegacy && data.paths == Texts(rules.sources)
  }

  function Roots(data: Document, rules: Rules, allowLegacy: bool): seq<string>
    requires data.Metadata?
  {
    if IsLegacy(data, rules, allowLegacy) then rules.sources else rules.inputs
  }

  predicate GoodHashes(hashes: map<string, Json>, roots: seq<string>) {
    && hashes != map[]
    && forall name <- hashes ::
         CheckedPath(name, roots) && hashes[name].Text? && IsHex(hashes[name].text, 64)
  }

  predicate GoodModes(modes: map<string, Json>, names: set<string>) {
    && modes.Keys == names
    && forall name <- modes :: modes[name] == Text(PLAIN) || modes[name] == Text(EXECUTABLE)
  }

  predicate GoodOrigin(data: Document, rules: Rules, allowLegacy: bool) {
    && data.Metadata?
    && data.repository == Text(rules.repository)
    && data.commit.Text? && IsCommit(data.commit.text)
    && data.paths == Texts(Roots(data, rules, allowLegacy))
    && data.files.Object?
    && GoodHashes(data.files.fields, Roots(data, rules, allowLegacy))
    && match data.fileModes
       case Some(Object(modes)) => GoodModes(modes, data.files.fields.Keys)
       case Some(Null) => IsLegacy(data, rules, allowLegacy)
       case None => IsLegacy(data, rules, allowLegacy)
       case Some(_) => false
  }

  /** The bytes of ORIGIN.json, if it may be read. */
  function OriginFile(s: Snapshot, bazelInputs: bool): Option<seq<byte>> {
    if ORIGIN !in s.nodes || (!bazelInputs && (s.linked || s.nodes[ORIGIN].Link?)) then None
    else
      match s.nodes[ORIGIN]
      case Regular(file) => Some(file.content)
      case Link(Some(file)) => Some(file.content)
      case _ => None
  }

  function Origin(s: Snapshot, rules: Rules, allowLegacy: bool, bazelInputs: bool): (r: Option<Document>)
    ensures r.Some? ==> GoodOrigin(r.value, rules, allowLegacy)
  {
    match OriginFile(s, bazelInputs)
    case None => None
    case Some(text) =>
      match rules.load(text)
      case Some(data) => if GoodOrigin(data, rules, allowLegacy) then Some(data) else None
      case None => None
  }

  /** `Refused` is the updater's own error; `Crashed` is a Python exception it does not mean. */
  datatype CheckError = Refused | Crashed

  method CheckHashes(hashes: map<string, Json>, roots: seq<string>) returns (ok: bool)
    ensures ok == GoodHashes(hashes, roots)
  {
    if hashes == map[] {
      return false;
    }
    var rest := hashes.Keys;
    while rest != {}
      invariant rest <= hashes.Keys
      invariant forall name <- hashes.Keys - rest ::
                  CheckedPath(name, roots) && hashes[name].Text? && IsHex(hashes[name].text, 64)
    {
      var name :| name in rest;
      if !CheckedPath(name, roots) || !hashes[name].Text? || !IsHex(hashes[name].text, 64) {
        return false;
      }
      rest := rest - {name};
    }
    return true;
  }

  /** The checks on the metadata itself. */
  method CheckOrigin(data: Document, rules: Rules, allowLegacy: bool) returns (ok: bool)
    ensures ok == GoodOrigin(data, rules, allowLegacy)
  {
    if data.NotObject? || data.repository != Text(rules.repository) {
      return false;
    }
    if !data.commit.Text? || !IsCommit(data.commit.text) {
      return false;
    }
    var legacy := allowLegacy && data.paths == Texts(rules.sources);
    if data.paths != Texts(rules.inputs) && !legacy {
      return false;
    }
    if !data.files.Object? {
      return false;
    }
    var hashes := data.files.fields;
    var good := CheckHashes(hashes, if legacy then rules.sources else rules.inputs);
    if !good {
      return false;
    }
    var modes := if data.fileModes.Some? then data.fileModes.value else Null;
    if modes == Null && legacy {
      return true;
    }
    return modes.Object? && GoodModes(modes.fields, hashes.Keys);
  }

  method LoadOrigin(s: Snapshot, rules: Rules, allowLegacy: bool, bazelInputs: bool)
    returns (r: Result<Document, CheckError>)
    ensures r == match Origin(s, rules, allowLegacy, bazelInputs)
                 case Some(data) => Ok(data)
                 case None => Err(Refused)
  {
    match OriginFile(s, bazelInputs) {
      case None => return Err(Refused);
      case Some(text) =>
        match rules.load(text) {
          case None => return Err(Refused);
          case Some(data) =>
            var good := CheckOrigin(data, rules, allowLegacy);
            return if good then Ok(data) else Err(Refused);
        }
    }
  }

  // ---- The check ----

  /** The file a node counts as: behind a link only for Bazel's inputs. */
  function FileAt(node: Node, bazelInputs: bool): Option<File> {
    match node
    case Regular(file) => Some(file)
    case Link(target) => if bazelInputs then target else None
    case Special => None
  }

  predicate OnlyFiles(nodes: Tree, bazelInputs: bool) {
    forall path <- nodes :: FileAt(nodes[path], bazelInputs).Some?
  }

  predicate HashMatches(file: File, hash: Json, digest: seq<byte> -> string) {
    hash == Text(digest(file.content))
  }

  /** A file's digest, and its owner's execute bit where that is kept. */
  predicate FileMatches(file: File, hash: Json, mode: Option<Json>, digest: seq<byte> -> string) {
    && HashMatches(file, hash, digest)
    && (mode.Some? ==> file.executable == (mode.value == Text(EXECUTABLE)))
  }

  /** The mode a name is held to: none for Bazel's copies, which keep no modes. */
  function ModeFor(name: string, modes: Option<Json>, bazelInputs: bool): Option<Json> {
    match modes
    case Some(Object(fields)) => if name in fields && !bazelInputs then Some(fields[name]) else None
    case _ => None
  }

  predicate Covered(names: set<string>, root: string) {
    exists name <- names :: Under(name, root)
  }

  predicate CoversRoots(names: set<string>, roots: seq<string>) {
    forall root <- roots :: Covered(names, root)
  }

  /** The files are the ones listed, each as listed. */
  predicate Agrees(nodes: Tree, hashes: map<string, Json>, modes: Option<Json>, digest: seq<byte> -> string,
                   bazelInputs: bool)
  {
    && OnlyFiles(nodes, bazelInputs)
    && nodes.Keys - {ORIGIN} == hashes.Keys
    && forall name <- hashes ::
         FileMatches(FileAt(nodes[name], bazelInputs).value, hashes[name],
                     ModeFor(name, modes, bazelInputs), digest)
  }

  predicate Accepts(s: Snapshot, rules: Rules, allowLegacy: bool, bazelInputs: bool) {
    match Origin(s, rules, allowLegacy, bazelInputs)
    case None => false
    case Some(data) =>
      && Agrees(s.nodes, data.files.fields, data.fileModes, rules.digest, bazelInputs)
      && CoversRoots(data.files.fields.Keys, Roots(data, rules, allowLegacy))
      // Metadata with a null where legacy metadata has no modes is tripped over.
      && data.fileModes != Some(Null)
  }

  /** The check gets past the file set and the digest of the file it compares first, and then
      trips over a null where legacy metadata has no modes. */
  predicate Trips(s: Snapshot, rules: Rules, allowLegacy: bool, bazelInputs: bool, first: string) {
    match Origin(s, rules, allowLegacy, bazelInputs)
    case None => false
    case Some(data) =>
      && data.fileModes == Some(Null)
      && OnlyFiles(s.nodes, bazelInputs)
      && s.nodes.Keys - {ORIGIN} == data.files.fields.Keys
      && first in data.files.fields
      && HashMatches(FileAt(s.nodes[first], bazelInputs).value, data.files.fields[first], rules.digest)
  }

  method CollectFiles(nodes: Tree, bazelInputs: bool) returns (r: Result<set<string>, CheckError>)
    ensures r == if OnlyFiles(nodes, bazelInputs) then Ok(nodes.Keys - {ORIGIN}) else Err(Refused)
  {
    var actual: set<string> := {};
    var rest := nodes.Keys;
    while rest != {}
      invariant rest <= nodes.Keys
      invariant actual == nodes.Keys - rest - {ORIGIN}
      invariant forall path <- nodes.Keys - rest :: FileAt(nodes[path], bazelInputs).Some?
    {
      var path :| path in rest;
      if FileAt(nodes[path], bazelInputs).None? {
        return Err(Refused);
      }
      if path != ORIGIN {
        actual := actual + {path};
      }
      rest := rest - {path};
    }
    assert nodes.Keys - rest == nodes.Keys;
    return Ok(actual);
  }

  /** `first` is the file compared first: the first the metadata lists. */
  method CheckFiles(nodes: Tree, hashes: map<string, Json>, modes: Option<Json>, digest: seq<byte> -> string,
                    bazelInputs: bool)
    returns (r: Result<(), CheckError>, ghost first: string)
    requires OnlyFiles(nodes, bazelInputs) && nodes.Keys - {ORIGIN} == hashes.Keys != {}
    ensures r.Ok? <==> modes != Some(Null) && Agrees(nodes, hashes, modes, digest, bazelInputs)
    ensures first in hashes
    ensures r == Err(Crashed) <==>
              modes == Some(Null) && HashMatches(FileAt(nodes[first], bazelInputs).value, hashes[first], digest)
  {
    first :| first in hashes;
    var rest := hashes.Keys;
    while rest != {}
      invariant rest <= hashes.Keys && first in hashes
      invariant rest < hashes.Keys ==> modes != Some(Null)
      invariant forall name <- hashes.Keys - rest ::
                  FileMatches(FileAt(nodes[name], bazelInputs).value, hashes[name],
                              ModeFor(name, modes, bazelInputs), digest)
    {
      var name :| name in rest;
      first := if rest == hashes.Keys then name else first;
      var file := FileAt(nodes[name], bazelInputs).value;
      if !HashMatches(file, hashes[name], digest) {
        return Err(Refused), first;
      }
      if modes == Some(Null) {
        return Err(Crashed), first;
      }
      var expected := ModeFor(name, modes, bazelInputs);
      if expected.Some? && file.executable != (expected.value == Text(EXECUTABLE)) {
        return Err(Refused), first;
      }
      rest := rest - {name};
    }
    return Ok(()), first;
  }

  method CheckRoots(names: set<string>, roots: seq<string>) returns (ok: bool)
    ensures ok == CoversRoots(names, roots)
  {
    for i := 0 to |roots|
      invariant forall j :: 0 <= j < i ==> Covered(names, roots[j])
    {
      if !Covered(names, roots[i]) {
        return false;
      }
    }
    return true;
  }

  method CheckSnapshot(s: Snapshot, rules: Rules, allowLegacy: bool, bazelInputs: bool)
    returns (r: Result<Document, CheckError>, ghost first: string)
    ensures r.Ok? <==> Accepts(s, rules, allowLegacy, bazelInputs)
    ensures r.Ok? ==> Origin(s, rules, allowLegacy, bazelInputs) == Some(r.value)
    // Exactly when it fails in a way it does not mean to.
    ensures r == Err(Crashed) <==> Trips(s, rules, allowLegacy, bazelInputs, first)
  {
    first := "";
    var loaded := LoadOrigin(s, rules, allowLegacy, bazelInputs);
    if loaded.Err? {
      return Err(loaded.error), first;
    }
    var data := loaded.value;
    var hashes := data.files.fields;
    var collected := CollectFiles(s.nodes, bazelInputs);
    if collected.Err? || collected.value != hashes.Keys {
      return Err(Refused), first;
    }
    var checked: Result<(), CheckError>;
    checked, first := CheckFiles(s.nodes, hashes, data.fileModes, rules.digest, bazelInputs);
    if checked.Err? {
      return Err(checked.error), first;
    }
    var covered := CheckRoots(hashes.Keys, Roots(data, rules, allowLegacy));
    return if covered then Ok(data) else Err(Refused), first;
  }

  /** Legacy metadata in good order but for a null in place of the modes it has none of. Whatever
      file is compared first, the check trips; with the field absent it accepts. */
  lemma NullModesTrip(s: Snapshot, t: Snapshot, rules: Rules, first: string)
    requires Accepts(s, rules, true, false)
    requires Origin(s, rules, true, false).value.fileModes == None
    requires ORIGIN in t.nodes && t == Snapshot(s.linked, s.nodes[ORIGIN := t.nodes[ORIGIN]])
    requires t.nodes[ORIGIN].Regular?
    requires rules.load(t.nodes[ORIGIN].file.content)
          == Some(Origin(s, rules, true, false).value.(fileModes := Some(Null)))
    requires first in Origin(s, rules, true, false).value.files.fields
    ensures Trips(t, rules, true, false, first) && !Accepts(t, rules, true, false)
  {
    var data := Origin(s, rules, true, false).value;
    NullModesAreRead(s, t, data, rules);
    assert first in s.nodes && first != ORIGIN;
    assert FileMatches(FileAt(s.nodes[first], false).value, data.files.fields[first],
                       ModeFor(first, data.fileModes, false), rules.digest);
  }

  lemma NullModesAreRead(s: Snapshot, t: Snapshot, data: Document, rules: Rules)
    requires Origin(s, rules, true, false) == Some(data) && data.fileModes == None
    requires !t.linked && ORIGIN in t.nodes && t.nodes[ORIGIN].Regular?
    requires rules.load(t.nodes[ORIGIN].file.content) == Some(data.(fileModes := Some(Null)))
    ensures Origin(t, rules, true, false) == Some(data.(fileModes := Some(Null)))
  {
  }

  // ---- What acceptance means ----

  /** The digests tell apart the contents two trees have under one name. */
  predicate NoCollision(a: Tree, b: Tree, digest: seq<byte> -> string, bazelInputs: bool) {
    forall name | name in a && name in b ::
      && FileAt(a[name], bazelInputs).Some? && FileAt(b[name], bazelInputs).Some?
      && digest(FileAt(a[name], bazelInputs).value.content) == digest(FileAt(b[name], bazelInputs).value.content)
      ==> FileAt(a[name], bazelInputs).value.content == FileAt(b[name], bazelInputs).value.content
  }

  /** The same regular files, and the same executable bits where modes are kept. */
  predicate SameRegular(a: Tree, b: Tree, modesKept: bool) {
    && a.Keys == b.Keys
    && forall name <- a ::
         && a[name].Regular? && b[name].Regular? && a[name].file.content == b[name].file.content
         && (modesKept && name != ORIGIN ==> a[name].file.executable == b[name].file.executable)
  }

  lemma AgreeingIsUnchanged(a: Tree, b: Tree, hashes: map<string, Json>, modes: Option<Json>,
                            digest: seq<byte> -> string)
    requires Agrees(a, hashes, modes, digest, false) && Agrees(b, hashes, modes, digest, false)
    requires match modes
             case Some(Object(fields)) => fields.Keys == hashes.Keys
             case _ => modes == None
    requires NoCollision(a, b, digest, false)
    requires ORIGIN in a && ORIGIN in b && a[ORIGIN] == b[ORIGIN]
    ensures SameRegular(a, b, modes.Some?)
  {
    assert a.Keys == hashes.Keys + {ORIGIN} == b.Keys;
    forall name | name in a && name != ORIGIN
      ensures a[name].Regular? && b[name].Regular? && a[name].file.content == b[name].file.content
      ensures modes.Some? ==> a[name].file.executable == b[name].file.executable
    {
      assert name in hashes;
      assert FileMatches(FileAt(a[name], false).value, hashes[name], ModeFor(name, modes, false), digest);
      assert FileMatches(FileAt(b[name], false).value, hashes[name], ModeFor(name, modes, false), digest);
    }
  }

  lemma UnchangedAgrees(a: Tree, b: Tree, hashes: map<string, Json>, modes: Option<Json>,
                        digest: seq<byte> -> string)
    requires Agrees(a, hashes, modes, digest, false) && SameRegular(a, b, modes.Some?)
    requires ORIGIN !in hashes
    ensures Agrees(b, hashes, modes, digest, false)
  {
    forall name | name in hashes
      ensures FileMatches(FileAt(b[name], false).value, hashes[name], ModeFor(name, modes, false), digest)
    {
      assert name in a;
      assert FileMatches(FileAt(a[name], false).value, hashes[name], ModeFor(name, modes, false), digest);
    }
  }

  lemma SameOriginNode(s: Snapshot, t: Snapshot)
    requires ORIGIN in s.nodes && ORIGIN in t.nodes && t.nodes[ORIGIN] == s.nodes[ORIGIN]
    ensures OriginFile(t, false) == if t.linked then None else OriginFile(Snapshot(false, s.nodes), false)
  {
  }

  /** Under the same ORIGIN.json, a snapshot is accepted exactly when it is unchanged: any other
      contents, an added or removed file, a link in a file's place or a flipped executable bit
      is refused, unless the digest collides. Only metadata that keeps no modes, which is legacy
      metadata, lets executable bits change. */
  lemma AnyChangeIsRefused(s: Snapshot, t: Snapshot, rules: Rules, allowLegacy: bool)
    requires Accepts(s, rules, allowLegacy, false)
    requires ORIGIN in t.nodes && t.nodes[ORIGIN] == s.nodes[ORIGIN]
    requires NoCollision(s.nodes, t.nodes, rules.digest, false)
    ensures var modes := Origin(s, rules, allowLegacy, false).value.fileModes;
            && (Accepts(t, rules, allowLegacy, false) <==> !t.linked && SameRegular(s.nodes, t.nodes, modes.Some?))
            && (!allowLegacy ==> modes.Some?)
            && (modes.Some? ==> (Accepts(t, rules, allowLegacy, false) <==> t == s))
  {
    var data := Origin(s, rules, allowLegacy, false).value;
    SameOriginNode(s, t);
    SameOriginNode(s, s);
    if Accepts(t, rules, allowLegacy, false) {
      assert Origin(t, rules, allowLegacy, false) == Some(data);
      AgreeingIsUnchanged(s.nodes, t.nodes, data.files.fields, data.fileModes, rules.digest);
    }
    if !t.linked && SameRegular(s.nodes, t.nodes, data.fileModes.Some?) {
      UnchangedIsAccepted(s, t, rules, allowLegacy, data);
      SameWithModes(s.nodes, t.nodes);
    }
  }

  lemma UnchangedIsAccepted(s: Snapshot, t: Snapshot, rules: Rules, allowLegacy: bool, data: Document)
    requires Accepts(s, rules, allowLegacy, false) && Origin(s, rules, allowLegacy, false) == Some(data)
    requires Origin(t, rules, allowLegacy, false) == Some(data)
    requires SameRegular(s.nodes, t.nodes, data.fileModes.Some?)
    ensures Accepts(t, rules, allowLegacy, false)
  {
    assert ORIGIN !in s.nodes.Keys - {ORIGIN};
    UnchangedAgrees(s.nodes, t.nodes, data.files.fields, data.fileModes, rules.digest);
  }

  lemma SameWithModes(a: Tree, b: Tree)
    ensures SameRegular(a, b, true) && ORIGIN in a && ORIGIN in b && a[ORIGIN] == b[ORIGIN] ==> a == b
  {
    if SameRegular(a, b, true) && ORIGIN in a && ORIGIN in b && a[ORIGIN] == b[ORIGIN] {
      assert forall name <- a :: a[name] == b[name];
    }
  }

  /** The files of an accepted snapshot, all of them, lie inside a declared root. */
  lemma AcceptedFilesStayInside(s: Snapshot, rules: Rules, allowLegacy: bool, bazelInputs: bool, name: string)
    requires ProperRules(rules) && Accepts(s, rules, allowLegacy, bazelInputs)
    requires name in s.nodes && name != ORIGIN
    ensures Walk([], Components(name)) == Some(Components(name))
    ensures exists root <- rules.inputs :: Components(root) <= Components(name)
  {
    var data := Origin(s, rules, allowLegacy, bazelInputs).value;
    var roots := Roots(data, rules, allowLegacy);
    assert name in data.files.fields;
    CheckedPathStaysInside(name, roots);
    var root :| root in roots && Components(root) <= Components(name);
    assert root in rules.inputs;
  }

  lemma TextsDetermine(a: seq<string>, b: seq<string>)
    requires Texts(a) == Texts(b)
    ensures a == b
  {
    assert forall i :: 0 <= i < |a| ==> Texts(a).items[i] == Text(a[i]) && Texts(b).items[i] == Text(b[i]);
  }

  lemma RootIsCovered(nodes: Tree, names: set<string>, root: string)
    requires Covered(names, root) && nodes.Keys - {ORIGIN} == names
    ensures exists name <- nodes :: name != ORIGIN && Components(root) <= Components(name)
  {
    var name :| name in names && Under(name, root);
    UnderExactly(name, root);
    assert name in nodes.Keys - {ORIGIN};
  }

  /** What an accepted snapshot's metadata says of it: where it is from, that every root it
      declares has a file below it, and every file's digest and, where modes count, mode. */
  lemma AcceptedIsAsDeclared(s: Snapshot, rules: Rules, allowLegacy: bool, bazelInputs: bool, text: seq<byte>,
                             data: Document)
    requires ProperRules(rules) && Accepts(s, rules, allowLegacy, bazelInputs)
    requires OriginFile(s, bazelInputs) == Some(text) && rules.load(text) == Some(data)
    ensures data.Metadata? && data.repository == Text(rules.repository)
    ensures data.commit.Text? && (|data.commit.text| == 40 || |data.commit.text| == 64)
    ensures forall c <- data.commit.text :: '0' <= c <= '9' || 'a' <= c <= 'f'
    ensures data.paths == Texts(rules.inputs) || (allowLegacy && data.paths == Texts(rules.sources))
    ensures forall roots: seq<string>, root: string :: data.paths == Texts(roots) && root in roots ==>
              exists name <- s.nodes :: name != ORIGIN && Components(root) <= Components(name)
    ensures data.files.Object?
    ensures forall name <- s.nodes :: name != ORIGIN ==>
              && name in data.files.fields && FileAt(s.nodes[name], bazelInputs).Some?
              && data.files.fields[name] == Text(rules.digest(FileAt(s.nodes[name], bazelInputs).value.content))
    ensures forall name <- data.files.fields :: name in s.nodes && name != ORIGIN
    ensures data.fileModes == None ==> allowLegacy && data.paths == Texts(rules.sources)
    ensures data.fileModes.Some? ==>
              && data.fileModes.value.Object? && data.fileModes.value.fields.Keys == data.files.fields.Keys
              && forall name <- data.fileModes.value.fields ::
                   data.fileModes.value.fields[name] in {Text("100644"), Text("100755")}
    ensures data.fileModes.Some? && !bazelInputs ==>
              forall name <- s.nodes :: name != ORIGIN ==>
                FileAt(s.nodes[name], false).value.executable == (data.fileModes.value.fields[name] == Text("100755"))
    ensures !bazelInputs ==> !s.linked && forall name <- s.nodes :: s.nodes[name].Regular?
  {
    assert Origin(s, rules, allowLegacy, bazelInputs) == Some(data);
    forall roots: seq<string>, root: string | data.paths == Texts(roots) && root in roots
      ensures exists name <- s.nodes :: name != ORIGIN && Components(root) <= Components(name)
    {
      TextsDetermine(roots, Roots(data, rules, allowLegacy));
      RootIsCovered(s.nodes, data.files.fields.Keys, root);
    }
    forall name | name in s.nodes && name != ORIGIN
      ensures name in data.files.fields && FileAt(s.nodes[name], bazelInputs).Some?
      ensures FileMatches(FileAt(s.nodes[name], bazelInputs).value, data.files.fields[name],
                          ModeFor(name, data.fileModes, bazelInputs), rules.digest)
    {
      assert name in s.nodes.Keys - {ORIGIN};
    }
  }

  /** The same files to a reader that follows links and knows no modes. */
  predicate SameContents(a: Tree, b: Tree) {
    && a.Keys == b.Keys
    && forall name <- a ::
         && FileAt(a[name], true).Some? && FileAt(b[name], true).Some?
         && FileAt(a[name], true).value.content == FileAt(b[name], true).value.content
  }

  /** Every transport of an accepted snapshot that keeps names and contents is accepted by the
      check of Bazel's inputs. */
  lemma BazelTransportIsAccepted(s: Snapshot, t: Snapshot, rules: Rules)
    requires Accepts(s, rules, false, false) && SameContents(s.nodes, t.nodes)
    ensures Accepts(t, rules, false, true)
  {
    var data := Origin(s, rules, false, false).value;
    SameOrigin(s, t);
    assert Origin(t, rules, false, true) == Some(data);
    TransportAgrees(s.nodes, t.nodes, data.files.fields, data.fileModes, rules.digest);
  }

  /** Of what Bazel declares, beside the same ORIGIN.json, exactly the transports of an accepted
      snapshot that keep names and contents are accepted, unless the digest collides: a changed
      file is refused, as is one added, removed or not to be read. */
  lemma BazelInputsExactly(s: Snapshot, t: Snapshot, rules: Rules)
    requires Accepts(s, rules, false, false)
    requires OriginFile(t, true) == OriginFile(s, false)
    requires NoCollision(s.nodes, t.nodes, rules.digest, true)
    ensures Accepts(t, rules, false, true) <==> SameContents(s.nodes, t.nodes)
  {
    if SameContents(s.nodes, t.nodes) {
      BazelTransportIsAccepted(s, t, rules);
    }
    if Accepts(t, rules, false, true) {
      var data := Origin(s, rules, false, false).value;
      assert Origin(t, rules, false, true) == Some(data);
      TransportKeepsContents(s, t, data.files.fields, data.fileModes, rules.digest);
    }
  }

  lemma TransportKeepsContents(s: Snapshot, t: Snapshot, hashes: map<string, Json>, modes: Option<Json>,
                               digest: seq<byte> -> string)
    requires Agrees(s.nodes, hashes, modes, digest, false) && Agrees(t.nodes, hashes, modes, digest, true)
    requires OriginFile(t, true) == OriginFile(s, false) && OriginFile(s, false).Some?
    requires NoCollision(s.nodes, t.nodes, digest, true)
    ensures SameContents(s.nodes, t.nodes)
  {
    assert s.nodes.Keys == hashes.Keys + {ORIGIN} == t.nodes.Keys;
    forall name | name in s.nodes
      ensures FileAt(s.nodes[name], true).Some? && FileAt(t.nodes[name], true).Some?
      ensures FileAt(s.nodes[name], true).value.content == FileAt(t.nodes[name], true).value.content
    {
      if name != ORIGIN {
        assert name in hashes;
        assert FileMatches(FileAt(s.nodes[name], false).value, hashes[name], ModeFor(name, modes, false), digest);
        assert FileMatches(FileAt(t.nodes[name], true).value, hashes[name], ModeFor(name, modes, true), digest);
      }
    }
  }

  lemma SameOrigin(s: Snapshot, t: Snapshot)
    requires OriginFile(s, false).Some? && SameContents(s.nodes, t.nodes)
    ensures OriginFile(t, true) == OriginFile(s, false)
  {
  }

  lemma TransportAgrees(a: Tree, b: Tree, hashes: map<string, Json>, modes: Option<Json>,
                        digest: seq<byte> -> string)
    requires Agrees(a, hashes, modes, digest, false) && SameContents(a, b)
    ensures Agrees(b, hashes, modes, digest, true)
  {
    forall name | name in hashes
      ensures FileMatches(FileAt(b[name], true).value, hashes[name], ModeFor(name, modes, true), digest)
    {
      assert name in a;
      assert FileMatches(FileAt(a[name], false).value, hashes[name], ModeFor(name, modes, false), digest);
    }
  }

  // ---- What the updater writes ----

  function ModeText(executable: bool): Json {
    Text(if executable then EXECUTABLE else PLAIN)
  }

  /** Metadata that has each file's digest and mode. */
  predicate Describes(hashes: map<string, Json>, modes: map<string, Json>, files: map<string, File>,
                      digest: seq<byte> -> string)
  {
    && hashes.Keys == modes.Keys == files.Keys
    && forall name <- files ::
         hashes[name] == Text(digest(files[name].content)) && modes[name] == ModeText(files[name].executable)
  }

  function MetadataFor(rules: Rules, commit: string, hashes: map<string, Json>, modes: map<string, Json>)
    : Document
  {
    Metadata(Text(rules.repository), Text(commit), Texts(rules.inputs), Object(hashes), Some(Object(modes)))
  }

  function Nodes(files: map<string, File>): Tree {
    map name | name in files :: Regular(files[name])
  }

  function WithOrigin(files: map<string, File>, origin: File): Tree {
    Nodes(files)[ORIGIN := Regular(origin)]
  }

  predicate InputNames(names: set<string>, roots: seq<string>) {
    CoversRoots(names, roots) && forall name <- names :: CheckedPath(name, roots)
  }

  lemma MetadataIsGood(rules: Rules, commit: string, hashes: map<string, Json>, modes: map<string, Json>,
                       files: map<string, File>)
    requires IsCommit(commit) && InputNames(files.Keys, rules.inputs) && files != map[]
    requires Describes(hashes, modes, files, rules.digest)
    requires forall content :: IsHex(rules.digest(content), 64)
    ensures GoodOrigin(MetadataFor(rules, commit, hashes, modes), rules, false)
  {
    assert hashes != map[] by {
      var name :| name in files;
      assert name in hashes;
    }
  }

  lemma DescribedFilesAgree(files: map<string, File>, origin: File, hashes: map<string, Json>,
                            modes: map<string, Json>, digest: seq<byte> -> string)
    requires ORIGIN !in files && Describes(hashes, modes, files, digest)
    ensures Agrees(WithOrigin(files, origin), hashes, Some(Object(modes)), digest, false)
  {
    assert WithOrigin(files, origin).Keys - {ORIGIN} == files.Keys;
  }

  /** Files under the input roots, written out with metadata that describes them, are accepted. */
  lemma DescribedFilesAreAccepted(rules: Rules, commit: string, hashes: map<string, Json>,
                                  modes: map<string, Json>, files: map<string, File>, origin: File)
    requires IsCommit(commit) && InputNames(files.Keys, rules.inputs) && files != map[]
    requires ORIGIN !in files && Describes(hashes, modes, files, rules.digest)
    requires forall content :: IsHex(rules.digest(content), 64)
    requires rules.load(origin.content) == Some(MetadataFor(rules, commit, hashes, modes))
    ensures Accepts(Snapshot(false, WithOrigin(files, origin)), rules, false, false)
  {
    MetadataIsGood(rules, commit, hashes, modes, files);
    var data := MetadataFor(rules, commit, hashes, modes);
    WrittenOriginIsRead(files, origin, data, rules);
    DescribedFilesAgree(files, origin, hashes, modes, rules.digest);
  }

  lemma WrittenOriginIsRead(files: map<string, File>, origin: File, data: Document, rules: Rules)
    requires rules.load(origin.content) == Some(data) && GoodOrigin(data, rules, false)
    ensures Origin(Snapshot(false, WithOrigin(files, origin)), rules, false, false) == Some(data)
  {
  }
}
