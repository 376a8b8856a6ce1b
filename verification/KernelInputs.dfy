/** The updater's own constants: which roots a kernel snapshot has. */
module KernelInputs {
  import opened Wrappers
  import opened Bytes
  import opened SnapshotPaths
  import opened Snapshots
  import opened Updater

  const SOURCE_PATHS: seq<string> := [
    "include/uapi/pkm",
    "peios/rust/peios-uapi",
    "security/pkm/kacs/peios_uapi.rs"
  ]
  const LICENSE_PATHS: seq<string> := [
    "LICENSES/preferred/MIT",
    "LICENSES/dual/Apache-2.0",
    "LICENSES/preferred/GPL-2.0",
    "LICENSES/exceptions/Linux-syscall-note"
  ]
  const INPUT_PATHS: seq<string> := SOURCE_PATHS + LICENSE_PATHS
  const REPOSITORY := "https://github.com/peios/kernel"

  function KernelRules(digest: seq<byte> -> string, load: seq<byte> -> Option<Document>): Rules {
    Rules(SOURCE_PATHS, INPUT_PATHS, REPOSITORY, digest, load)
  }

  /** A character a component may start with and not be `.` or `..`. */
  predicate Starts(c: char) {
    c != '/' && c != '.'
  }

  /** Every component starts with such a character. */
  predicate Lettered(name: string) {
    && name != "" && Starts(name[0])
    && forall i :: 0 <= i < |name| && name[i] == '/' ==> i + 1 < |name| && Starts(name[i + 1])
  }

  lemma {:induction false} LetteredIsProper(name: string)
    requires Lettered(name)
    ensures Proper(name)
    decreases |name|
  {
    var i := FirstSlash(name);
    if i < |name| {
      var rest := name[i + 1..];
      assert forall j :: 0 <= j < |rest| ==> rest[j] == name[i + 1 + j];
      LetteredIsProper(rest);
      assert name[..i][0] == name[0];
    }
  }

  lemma SourcesAreLettered()
    ensures Lettered("include/uapi/pkm") && Lettered("peios/rust/peios-uapi")
    ensures Lettered("security/pkm/kacs/peios_uapi.rs")
  {
  }

  lemma LicensesAreLettered()
    ensures Lettered("LICENSES/preferred/MIT") && Lettered("LICENSES/dual/Apache-2.0")
    ensures Lettered("LICENSES/preferred/GPL-2.0")
  {
  }

  lemma ExceptionsAreLettered()
    ensures Lettered("LICENSES/exceptions/Linux-syscall-note")
  {
  }

  lemma OriginIsNoInput()
    ensures !UnderAny(ORIGIN, INPUT_PATHS)
  {
    UnderAnyExactly(ORIGIN, INPUT_PATHS);
    forall root | root in INPUT_PATHS
      ensures !Under(ORIGIN, root)
    {
      assert ORIGIN[0] == 'O' && root[0] != 'O';
      assert (root + "/")[0] == root[0];
    }
  }

  /** What holds of all proper rules holds of the updater's. */
  lemma KernelRulesAreProper(digest: seq<byte> -> string, load: seq<byte> -> Option<Document>)
    ensures ProperRules(KernelRules(digest, load))
  {
    SourcesAreLettered();
    LicensesAreLettered();
    ExceptionsAreLettered();
    forall root | root in INPUT_PATHS
      ensures Proper(root)
    {
      LetteredIsProper(root);
    }
    OriginIsNoInput();
  }

  /** Every file of a snapshot the updater accepts lies inside one of its roots. */
  lemma KernelFilesStayInside(s: Snapshot, digest: seq<byte> -> string, load: seq<byte> -> Option<Document>,
                              allowLegacy: bool, bazelInputs: bool, name: string)
    ensures Accepts(s, KernelRules(digest, load), allowLegacy, bazelInputs) && name in s.nodes && name != ORIGIN ==>
              && Walk([], Components(name)) == Some(Components(name))
              && exists root <- INPUT_PATHS :: Components(root) <= Components(name)
  {
    KernelRulesAreProper(digest, load);
    if Accepts(s, KernelRules(digest, load), allowLegacy, bazelInputs) && name in s.nodes && name != ORIGIN {
      AcceptedFilesStayInside(s, KernelRules(digest, load), allowLegacy, bazelInputs, name);
    }
  }

  /** With the updater's roots nothing makes an update fail but its inputs, the destination and
      the disk, as long as digests are digests and JSON is read as it was written. */
  lemma KernelRulesAreSound(digest: seq<byte> -> string, load: seq<byte> -> Option<Document>,
                            render: Document -> seq<byte>)
    requires forall content :: IsHex(digest(content), 64)
    requires forall data :: load(render(data)) == Some(data)
    ensures Sound(KernelRules(digest, load), render)
  {
    KernelRulesAreProper(digest, load);
  }

  // ---- A legacy snapshot that is tripped over ----

  /** Legacy metadata that lists a file of digest `hash` at each source root. */
  function LegacyDocument(sources: seq<string>, repository: string, hash: string, modes: Option<Json>): Document {
    Metadata(Text(repository), Text(hash), Texts(sources),
             Object(map name | name in sources :: Text(hash)), modes)
  }

  /** Empty files at the source roots, and `text` for metadata. */
  function LegacySnapshot(sources: seq<string>, text: seq<byte>): Snapshot {
    Snapshot(false, (map name | name in sources :: Regular(File([], false)))[ORIGIN := Regular(File(text, false))])
  }

  lemma RootsAreUnderThemselves(roots: seq<string>)
    requires forall root <- roots :: Proper(root)
    ensures forall root <- roots :: CheckedPath(root, roots)
    ensures CoversRoots((set root | root in roots), roots)
  {
    forall root | root in roots
      ensures CheckedPath(root, roots) && Covered((set other | other in roots), root)
    {
      assert Components(root) <= Components(root);
      CheckedPathExactly(root, roots);
      assert Under(root, root);
    }
  }

  lemma LegacyHashesAreGood(sources: seq<string>, repository: string, hash: string, modes: Option<Json>)
    requires sources != [] && IsHex(hash, 64) && forall root <- sources :: Proper(root)
    ensures GoodHashes(LegacyDocument(sources, repository, hash, modes).files.fields, sources)
  {
    RootsAreUnderThemselves(sources);
    assert sources[0] in LegacyDocument(sources, repository, hash, modes).files.fields;
  }

  /** The metadata is in good order with the modes absent or null. */
  lemma LegacyIsGood(sources: seq<string>, hash: string, modes: Option<Json>, rules: Rules)
    requires IsHex(hash, 64) && (modes == None || modes == Some(Null))
    requires rules.sources == sources != [] && forall root <- sources :: Proper(root)
    ensures GoodOrigin(LegacyDocument(sources, rules.repository, hash, modes), rules, true)
  {
    LegacyHashesAreGood(sources, rules.repository, hash, modes);
  }

  lemma LegacyAgrees(sources: seq<string>, text: seq<byte>, repository: string, modes: Option<Json>,
                     digest: seq<byte> -> string)
    requires ORIGIN !in sources && (modes == None || modes == Some(Null))
    ensures Agrees(LegacySnapshot(sources, text).nodes,
                   LegacyDocument(sources, repository, digest([]), modes).files.fields, modes, digest, false)
  {
    assert LegacySnapshot(sources, text).nodes.Keys - {ORIGIN} == set name | name in sources;
  }

  lemma LegacyIsRead(sources: seq<string>, text: seq<byte>, data: Document, rules: Rules)
    requires rules.load(text) == Some(data) && GoodOrigin(data, rules, true)
    ensures Origin(LegacySnapshot(sources, text), rules, true, false) == Some(data)
  {
  }

  lemma LegacyChecked(sources: seq<string>, text: seq<byte>, rules: Rules, modes: Option<Json>, first: string)
    requires rules.sources == sources && ProperRules(rules) && first in sources && ORIGIN !in sources
    requires IsHex(rules.digest([]), 64) && (modes == None || modes == Some(Null))
    requires rules.load(text) == Some(LegacyDocument(sources, rules.repository, rules.digest([]), modes))
    ensures if modes == None then Accepts(LegacySnapshot(sources, text), rules, true, false)
            else Trips(LegacySnapshot(sources, text), rules, true, false, first)
  {
    LegacyIsGood(sources, rules.digest([]), modes, rules);
    LegacyAgrees(sources, text, rules.repository, modes, rules.digest);
    RootsAreUnderThemselves(sources);
    LegacyIsRead(sources, text, LegacyDocument(sources, rules.repository, rules.digest([]), modes), rules);
  }

  lemma OriginIsNoSource()
    ensures ORIGIN !in SOURCE_PATHS
  {
    assert ORIGIN[0] == 'O';
  }

  /** Whatever the digest and the JSON reader: with metadata that has no modes the snapshot is
      accepted; with metadata that differs only by a null in their place, the check trips. */
  lemma LegacyNullModesTrip(digest: seq<byte> -> string, load: seq<byte> -> Option<Document>,
                            without: seq<byte>, nulled: seq<byte>, first: string)
    requires IsHex(digest([]), 64) && first in SOURCE_PATHS
    requires load(without) == Some(LegacyDocument(SOURCE_PATHS, REPOSITORY, digest([]), None))
    requires load(nulled) == Some(LegacyDocument(SOURCE_PATHS, REPOSITORY, digest([]), Some(Null)))
    ensures Accepts(LegacySnapshot(SOURCE_PATHS, without), KernelRules(digest, load), true, false)
    ensures Trips(LegacySnapshot(SOURCE_PATHS, nulled), KernelRules(digest, load), true, false, first)
  {
    KernelRulesAreProper(digest, load);
    OriginIsNoSource();
    LegacyChecked(SOURCE_PATHS, without, KernelRules(digest, load), None, first);
    LegacyChecked(SOURCE_PATHS, nulled, KernelRules(digest, load), Some(Null), first);
  }
}
