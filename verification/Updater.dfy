/** Replacing a kernel snapshot: what Git has is staged, checked, and put in the destination's
    place by two renames. */
module Updater {
  import opened Wrappers
  import opened Bytes
  import opened SnapshotPaths
  import opened BatchStream
  import opened Snapshots
  import opened Disks

  // ---- What Git has ----

  /** A line of `git ls-tree -r`. */
  datatype Entry = Entry(mode: string, kind: string, id: seq<byte>, path: string)

  /** What Git answers: the commit the argument resolves to, its tree, and the blobs' stream. */
  datatype Git = Git(
    resolved: Result<string, Failure>,
    tree: Result<seq<Entry>, Failure>,
    stream: Result<seq<byte>, Failure>)

  function Paths(entries: seq<Entry>): set<string> {
    set entry <- entries :: entry.path
  }

  predicate KnownMode(mode: string) {
    mode == PLAIN || mode == EXECUTABLE
  }

  predicate IsInputFile(entry: Entry, roots: seq<string>) {
    CheckedPath(entry.path, roots) && entry.kind == "blob" && KnownMode(entry.mode)
  }

  /** Regular files under the roots, at least one under each. */
  predicate IsInputTree(entries: seq<Entry>, roots: seq<string>) {
    (forall entry <- entries :: IsInputFile(entry, roots)) && CoversRoots(Paths(entries), roots)
  }

  /** A blob with a regular file's mode, at a path of entry names below a root. */
  ghost predicate RegularBlob(entry: Entry, roots: seq<string>) {
    && entry.kind == "blob" && (entry.mode == "100644" || entry.mode == "100755")
    && Proper(entry.path) && exists root <- roots :: Components(root) <= Components(entry.path)
  }

  ghost predicate HasEntry(entries: seq<Entry>, root: string) {
    exists entry <- entries :: Components(root) <= Components(entry.path)
  }

  lemma InputFileExactly(entry: Entry, roots: seq<string>)
    requires forall root <- roots :: Proper(root)
    ensures IsInputFile(entry, roots) <==> RegularBlob(entry, roots)
  {
    CheckedPathExactly(entry.path, roots);
  }

  lemma CoveredExactly(entries: seq<Entry>, root: string)
    ensures Covered(Paths(entries), root) <==> HasEntry(entries, root)
  {
    if Covered(Paths(entries), root) {
      var name :| name in Paths(entries) && Under(name, root);
      var entry :| entry in entries && entry.path == name;
      UnderExactly(name, root);
      assert Components(root) <= Components(entry.path);
    }
    forall entry | entry in entries && Components(root) <= Components(entry.path)
      ensures Covered(Paths(entries), root)
    {
      UnderExactly(entry.path, root);
      assert entry.path in Paths(entries);
    }
  }

  lemma {:induction false} RootsCoveredExactly(entries: seq<Entry>, roots: seq<string>)
    ensures CoversRoots(Paths(entries), roots) <==> forall root <- roots :: HasEntry(entries, root)
  {
    forall root | root in roots
      ensures Covered(Paths(entries), root) <==> HasEntry(entries, root)
    {
      CoveredExactly(entries, root);
    }
  }

  /** A tree is taken exactly when every entry is a blob with a regular file's mode at a path of
      entry names below a root, and every root has one. */
  lemma InputTreeExactly(entries: seq<Entry>, roots: seq<string>)
    requires forall root <- roots :: Proper(root)
    ensures IsInputTree(entries, roots)
       <==> (forall entry <- entries :: RegularBlob(entry, roots)) && (forall root <- roots :: HasEntry(entries, root))
  {
    RootsCoveredExactly(entries, roots);
    forall entry | entry in entries
      ensures IsInputFile(entry, roots) <==> RegularBlob(entry, roots)
    {
      InputFileExactly(entry, roots);
    }
  }

  function Ids(entries: seq<Entry>): (ids: seq<seq<byte>>)
    ensures |ids| == |entries|
    ensures forall i :: 0 <= i < |entries| ==> ids[i] == entries[i].id
  {
    if entries == [] then [] else [entries[0].id] + Ids(entries[1..])
  }

  /** `tree_entries`. */
  method TreeEntries(git: Git, roots: seq<string>) returns (r: Result<seq<Entry>, Failure>)
    ensures r.Ok? ==> git.tree == Ok(r.value) && IsInputTree(r.value, roots)
    ensures r.Err? ==> git.tree.Err? || !IsInputTree(git.tree.value, roots)
  {
    var entries :- git.tree;
    for i := 0 to |entries|
      invariant forall j :: 0 <= j < i ==> IsInputFile(entries[j], roots)
    {
      if !IsInputFile(entries[i], roots) {
        return Err(SnapshotError);
      }
    }
    var covered := CheckRoots(Paths(entries), roots);
    return if covered then Ok(entries) else Err(SnapshotError);
  }

  // ---- Export ----

  function FileOf(entry: Entry, blob: seq<byte>): File {
    File(blob, entry.mode == EXECUTABLE)
  }

  /** Each entry's blob at its path. */
  function Written(entries: seq<Entry>, blobs: seq<seq<byte>>): (files: map<string, File>)
    requires |entries| == |blobs|
  {
    if entries == [] then map[]
    else
      var last := |entries| - 1;
      Written(entries[..last], blobs[..last])[entries[last].path := FileOf(entries[last], blobs[last])]
  }

  lemma WrittenNext(entries: seq<Entry>, blobs: seq<seq<byte>>, entry: Entry, blob: seq<byte>)
    requires |entries| == |blobs|
    ensures Written(entries + [entry], blobs + [blob]) == Written(entries, blobs)[entry.path := FileOf(entry, blob)]
  {
    assert (entries + [entry])[..|entries|] == entries && (blobs + [blob])[..|blobs|] == blobs;
  }

  lemma {:induction false} WrittenPaths(entries: seq<Entry>, blobs: seq<seq<byte>>)
    requires |entries| == |blobs|
    ensures Written(entries, blobs).Keys == Paths(entries)
  {
    if entries == [] {
    } else {
      var last := |entries| - 1;
      WrittenPaths(entries[..last], blobs[..last]);
      assert entries == entries[..last] + [entries[last]];
      assert Paths(entries) == Paths(entries[..last]) + {entries[last].path};
    }
  }

  /** The last entry of a path decides what is written there. */
  lemma {:induction false} WrittenAt(entries: seq<Entry>, blobs: seq<seq<byte>>, i: nat)
    requires i < |entries| == |blobs| && forall j :: i < j < |entries| ==> entries[j].path != entries[i].path
    ensures entries[i].path in Written(entries, blobs)
    ensures Written(entries, blobs)[entries[i].path] == File(blobs[i], entries[i].mode == "100755")
  {
    var last := |entries| - 1;
    if i < last {
      WrittenAt(entries[..last], blobs[..last], i);
    }
  }

  /** The error a stream that is not as it should be ends in. */
  function StreamFailure(e: StreamError): Failure {
    if e == NotAscii || e == NotInteger then StreamCrashed else SnapshotError
  }

  function ErrorOf<T>(r: Result<T, StreamError>): Option<StreamError> {
    match r
    case Ok(_) => None
    case Err(e) => Some(e)
  }

  predicate HasTreeAndStream(git: Git, roots: seq<string>) {
    git.tree.Ok? && IsInputTree(git.tree.value, roots) && git.stream.Ok?
  }

  /** What is wrong with the stream, if anything is. */
  function StreamErrorOf(git: Git, roots: seq<string>): Option<StreamError>
    requires HasTreeAndStream(git, roots)
  {
    ErrorOf(BlobsFrom(git.stream.value, 0, Ids(git.tree.value)))
  }

  predicate StreamCrashes(git: Git, roots: seq<string>)
    requires HasTreeAndStream(git, roots)
  {
    StreamErrorOf(git, roots) == Some(NotAscii) || StreamErrorOf(git, roots) == Some(NotInteger)
  }

  /** Git has a tree of input files, and their blobs in its stream. */
  predicate Exportable(git: Git, roots: seq<string>) {
    && git.tree.Ok? && IsInputTree(git.tree.value, roots)
    && git.stream.Ok? && BlobsFrom(git.stream.value, 0, Ids(git.tree.value)).Ok?
  }

  function Exported(git: Git, roots: seq<string>): map<string, File>
    requires Exportable(git, roots)
  {
    Written(git.tree.value, BlobsFrom(git.stream.value, 0, Ids(git.tree.value)).value)
  }

  lemma DescribesNext(hashes: map<string, Json>, modes: map<string, Json>, files: map<string, File>,
                      digest: seq<byte> -> string, entry: Entry, blob: seq<byte>)
    requires Describes(hashes, modes, files, digest)
    requires KnownMode(entry.mode)
    ensures Describes(hashes[entry.path := Text(digest(blob))], modes[entry.path := Text(entry.mode)],
                      files[entry.path := FileOf(entry, blob)], digest)
  {
  }

  lemma NodesNext(files: map<string, File>, path: string, file: File)
    ensures Nodes(files[path := file]) == Nodes(files)[path := Regular(file)]
  {
  }

  /** What one turn of the export leaves: everything so far written, described, and no more. */
  ghost predicate ExportedSoFar(staged: Place, hashes: map<string, Json>, modes: map<string, Json>,
                                entries: seq<Entry>, blobs: seq<seq<byte>>, digest: seq<byte> -> string)
  {
    && |entries| == |blobs|
    && staged == Directory(Nodes(Written(entries, blobs)))
    && Describes(hashes, modes, Written(entries, blobs), digest)
  }

  lemma ExportedNext(staged: Place, hashes: map<string, Json>, modes: map<string, Json>, entries: seq<Entry>,
                     blobs: seq<seq<byte>>, digest: seq<byte> -> string, entry: Entry, blob: seq<byte>)
    requires ExportedSoFar(staged, hashes, modes, entries, blobs, digest)
    requires KnownMode(entry.mode)
    ensures ExportedSoFar(Directory(staged.nodes[entry.path := Regular(FileOf(entry, blob))]),
                          hashes[entry.path := Text(digest(blob))], modes[entry.path := Text(entry.mode)],
                          entries + [entry], blobs + [blob], digest)
  {
    WrittenNext(entries, blobs, entry, blob);
    NodesNext(Written(entries, blobs), entry.path, FileOf(entry, blob));
    DescribesNext(hashes, modes, Written(entries, blobs), digest, entry, blob);
  }

  /** `blobs` are those of the first `i` entries, and what is left starts at `offset`. */
  ghost predicate ReadSoFar(contents: seq<byte>, entries: seq<Entry>, i: nat, offset: nat, blobs: seq<seq<byte>>) {
    && offset <= |contents| && i <= |entries|
    && BlobsFrom(contents, 0, Ids(entries)) == Prepended(blobs, BlobsFrom(contents, offset, Ids(entries[i..])))
  }

  lemma ReadNext(contents: seq<byte>, entries: seq<Entry>, i: nat, offset: nat, blobs: seq<seq<byte>>)
    requires ReadSoFar(contents, entries, i, offset, blobs) && i < |entries|
    ensures match NextBlob(contents, offset, entries[i].id)
            case Err(e) => BlobsFrom(contents, 0, Ids(entries)) == Err(e)
            case Ok((blob, next)) => ReadSoFar(contents, entries, i + 1, next, blobs + [blob])
  {
    assert entries[i..][1..] == entries[i + 1..];
    assert Ids(entries[i..])[1..] == Ids(entries[i + 1..]);
    BlobsNext(contents, offset, Ids(entries[i..]), blobs);
  }

  lemma ReadAll(contents: seq<byte>, entries: seq<Entry>, offset: nat, blobs: seq<seq<byte>>)
    requires ReadSoFar(contents, entries, |entries|, offset, blobs)
    ensures BlobsFrom(contents, 0, Ids(entries)) == if offset == |contents| then Ok(blobs) else Err(Trailing)
  {
  }

  predicate KnownModes(entries: seq<Entry>) {
    forall i :: 0 <= i < |entries| ==> KnownMode(entries[i].mode)
  }

  lemma InputModes(entries: seq<Entry>, roots: seq<string>)
    requires IsInputTree(entries, roots)
    ensures KnownModes(entries)
  {
    forall i | 0 <= i < |entries|
      ensures KnownMode(entries[i].mode)
    {
      assert IsInputFile(entries[i], roots);
    }
  }

  /** Where the export is: the offset in the stream, and the metadata collected. */
  datatype Exporting = Exporting(offset: nat, hashes: map<string, Json>, modes: map<string, Json>)

  /** The call on the disk failed, or the stream is not as it should be and that is the error. */
  predicate ExportError(error: Failure, mayFail: bool, stream: Option<StreamError>) {
    || (mayFail && error in {OsError, Interrupted})
    || (stream.Some? && error == StreamFailure(stream.value))
  }

  /** One turn of the loop: the next blob, at its path. */
  method ExportEntry(disk: Disk, entries: seq<Entry>, i: nat, contents: seq<byte>, at: Exporting, rules: Rules,
                     ghost blobs: seq<seq<byte>>)
    returns (r: Result<Exporting, Failure>, ghost more: seq<seq<byte>>)
    requires i < |entries| && KnownMode(entries[i].mode)
    requires ReadSoFar(contents, entries, i, at.offset, blobs)
    requires ExportedSoFar(disk.now.staged, at.hashes, at.modes, entries[..i], blobs, rules.digest)
    modifies disk`now, disk`history
    ensures r.Ok? ==>
              && ReadSoFar(contents, entries, i + 1, r.value.offset, more)
              && ExportedSoFar(disk.now.staged, r.value.hashes, r.value.modes, entries[..i + 1], more, rules.digest)
    ensures r.Err? ==> ExportError(r.error, disk.mayFail, ErrorOf(BlobsFrom(contents, 0, Ids(entries))))
    ensures disk.now.staged.Directory? && Apart(disk.now, old(disk.now), Staged)
    ensures old(disk.history) <= disk.history
    ensures OnlyStaging(disk.history, |old(disk.history)|, old(disk.now))
  {
    more := blobs;
    var entry := entries[i];
    ReadNext(contents, entries, i, at.offset, blobs);
    var next := NextBlob(contents, at.offset, entry.id);
    if next.Err? {
      return Err(StreamFailure(next.error)), more;
    }
    var blob := next.value.0;
    more := blobs + [blob];
    assert entries[..i + 1] == entries[..i] + [entry];
    ExportedNext(disk.now.staged, at.hashes, at.modes, entries[..i], blobs, rules.digest, entry, blob);
    var wrote := disk.Write(entry.path, FileOf(entry, blob));
    if wrote.Err? {
      return Err(wrote.error), more;
    }
    r := Ok(Exporting(next.value.1, at.hashes[entry.path := Text(rules.digest(blob))],
                      at.modes[entry.path := Text(entry.mode)]));
  }

  /** Writes the entries' blobs from the stream, which must end with them. */
  method ExportEntries(disk: Disk, entries: seq<Entry>, contents: seq<byte>, rules: Rules)
    returns (r: Result<(map<string, Json>, map<string, Json>), Failure>)
    requires disk.now.staged == Directory(map[]) && KnownModes(entries)
    modifies disk`now, disk`history
    ensures r.Ok? ==>
              && BlobsFrom(contents, 0, Ids(entries)).Ok?
              && ExportedSoFar(disk.now.staged, r.value.0, r.value.1, entries,
                               BlobsFrom(contents, 0, Ids(entries)).value, rules.digest)
    ensures r.Err? ==> ExportError(r.error, disk.mayFail, ErrorOf(BlobsFrom(contents, 0, Ids(entries))))
    ensures disk.now.staged.Directory? && Apart(disk.now, old(disk.now), Staged)
    ensures old(disk.history) <= disk.history
    ensures OnlyStaging(disk.history, |old(disk.history)|, old(disk.now))
  {
    var at := Exporting(0, map[], map[]);
    ghost var blobs: seq<seq<byte>> := [];
    assert entries[0..] == entries;
    for i := 0 to |entries|
      invariant ReadSoFar(contents, entries, i, at.offset, blobs)
      invariant ExportedSoFar(disk.now.staged, at.hashes, at.modes, entries[..i], blobs, rules.digest)
      invariant Apart(disk.now, old(disk.now), Staged)
      invariant old(disk.history) <= disk.history
      invariant OnlyStaging(disk.history, |old(disk.history)|, old(disk.now))
    {
      var turn;
      turn, blobs := ExportEntry(disk, entries, i, contents, at, rules, blobs);
      if turn.Err? {
        return Err(turn.error);
      }
      at := turn.value;
    }
    assert entries[..|entries|] == entries;
    ReadAll(contents, entries, at.offset, blobs);
    return if at.offset == |contents| then Ok((at.hashes, at.modes)) else Err(SnapshotError);
  }

  method ExportFiles(disk: Disk, git: Git, rules: Rules)
    returns (r: Result<(map<string, Json>, map<string, Json>), Failure>)
    requires disk.now.staged == Directory(map[])
    modifies disk`now, disk`history
    ensures r.Ok? ==>
              && Exportable(git, rules.inputs)
              && disk.now.staged == Directory(Nodes(Exported(git, rules.inputs)))
              && Describes(r.value.0, r.value.1, Exported(git, rules.inputs), rules.digest)
    ensures r.Err? ==> disk.mayFail || !Exportable(git, rules.inputs)
    // Which failure it is once there are a tree and a stream; Python's own exceptions exactly
    // for a header that is not ASCII or a size that is no integer.
    ensures r.Err? && HasTreeAndStream(git, rules.inputs) ==>
              ExportError(r.error, disk.mayFail, StreamErrorOf(git, rules.inputs))
    ensures HasTreeAndStream(git, rules.inputs) ==>
              (r == Err(StreamCrashed) ==> StreamCrashes(git, rules.inputs))
              && (StreamCrashes(git, rules.inputs) && !disk.mayFail ==> r == Err(StreamCrashed))
    ensures disk.now.staged.Directory? && Apart(disk.now, old(disk.now), Staged)
    ensures old(disk.history) <= disk.history
    ensures OnlyStaging(disk.history, |old(disk.history)|, old(disk.now))
  {
    var entries :- TreeEntries(git, rules.inputs);
    var contents :- git.stream;
    InputModes(entries, rules.inputs);
    r := ExportEntries(disk, entries, contents, rules);
  }

  // ---- Replacement ----

  predicate IsReplaced(place: Place, replacement: Option<Tree>) {
    match replacement
    case None => false
    case Some(tree) => place == Directory(tree)
  }

  /** The destination is what was there, nothing, or the whole of the verified replacement; and
      what was there is whole, there or in the backup, unless the replacement is in its place. */
  predicate Safe(s: State, previous: Place, replacement: Option<Tree>) {
    && (s.dest == previous || s.dest.Missing? || IsReplaced(s.dest, replacement))
    && (s.dest == previous || s.backup == previous || IsReplaced(s.dest, replacement))
  }

  predicate AllSafe(history: seq<State>, start: nat, previous: Place, replacement: Option<Tree>) {
    forall i :: start <= i < |history| ==> Safe(history[i], previous, replacement)
  }

  predicate Renames(a: Renaming, from: Slot, to: Slot) {
    a.from == from && a.to == to
  }

  /** The renames from the `n`th on, if there are any: what was there goes aside; the staged copy
      goes to its place; and if that fails what was there goes back. */
  predicate IsInstallation(renames: seq<Renaming>, n: nat, hadPrevious: bool) {
    && n <= |renames|
    && (n < |renames| ==>
          if !hadPrevious then
            |renames| == n + 1 && Renames(renames[n], Staged, Dest)
          else
            && Renames(renames[n], Dest, Backup)
            && if renames[n].outcome.Err? then |renames| == n + 1
               else
                 && n + 1 < |renames| && Renames(renames[n + 1], Staged, Dest)
                 && if renames[n + 1].outcome.Ok? then |renames| == n + 2
                    else |renames| == n + 3 && Renames(renames[n + 2], Backup, Dest))
  }

  /** None of these renames but that of the staged copy failed of its own. */
  predicate OnlyStagedStruck(renames: seq<Renaming>, n: nat) {
    forall i :: n <= i < |renames| && renames[i].struck ==> renames[i].from == Staged
  }

  /** `install_snapshot`: the first rename or both, and back if the second fails. */
  method InstallSnapshot(disk: Disk, ghost previous: Place, ghost tree: Tree)
    returns (r: Result<(), Failure>)
    requires disk.now == State(previous, Directory(tree), Missing) && tree != map[]
    requires previous.Missing? || previous.Directory?
    modifies disk
    ensures r.Ok? ==> disk.now == State(Directory(tree), Missing, previous)
    ensures r.Err? ==>
              || disk.now == State(previous, Directory(tree), Missing)
              || disk.now == State(Missing, Directory(tree), previous)
              || disk.now == State(Directory(tree), Missing, previous)
    ensures r.Err? ==> disk.mayFail
    ensures old(disk.history) <= disk.history
    ensures AllSafe(disk.history, |old(disk.history)|, previous, Some(tree))
    // What it tried, and what that comes to when no rename but the staged copy's fails.
    ensures old(disk.renames) <= disk.renames
    ensures IsInstallation(disk.renames, |old(disk.renames)|, !previous.Missing?)
    ensures OnlyStagedStruck(disk.renames, |old(disk.renames)|) ==>
              disk.now.dest == previous || disk.now.dest == Directory(tree)
    ensures |disk.renames| == |old(disk.renames)| ==> r.Err? && disk.now == old(disk.now)
    ensures |disk.renames| > |old(disk.renames)| ==>
              r == disk.renames[if |disk.renames| == |old(disk.renames)| + 3
                                   && disk.renames[|disk.renames| - 1].outcome.Ok?
                                then |disk.renames| - 2 else |disk.renames| - 1].outcome
  {
    var hadPrevious :- disk.Exists(Dest);
    if hadPrevious {
      var aside :- disk.Rename(Dest, Backup);
    }
    r := disk.Rename(Staged, Dest);
    if r.Err? && hadPrevious {
      var back :- disk.Rename(Backup, Dest);
    }
  }

  function SnapshotAt(place: Place): Snapshot {
    match place
    case Missing => Snapshot(false, map[])
    case NotDirectory => Snapshot(false, map[])
    case Symlink(target) => Snapshot(true, target)
    case Directory(nodes) => Snapshot(false, nodes)
  }

  /** Nothing, or a snapshot in good order, if only by the oldest metadata. */
  predicate Replaceable(place: Place, rules: Rules) {
    place.Missing? || Accepts(SnapshotAt(place), rules, true, false)
  }

  lemma OnlyDirectoriesAreReplaced(place: Place, rules: Rules)
    requires Replaceable(place, rules)
    ensures place.Missing? || place.Directory?
  {
    if !place.Missing? {
      assert Origin(SnapshotAt(place), rules, true, false).Some?;
    }
  }

  /** JSON is read as it was written, digests are digests, and the roots are proper. */
  ghost predicate Sound(rules: Rules, render: Document -> seq<byte>) {
    && ProperRules(rules)
    && (forall content :: IsHex(rules.digest(content), 64))
    && (forall data :: rules.load(render(data)) == Some(data))
  }

  /** The replacement: Git's files and metadata that describes them. */
  predicate IsReplacement(tree: Tree, data: Document, git: Git, commit: string, rules: Rules,
                          render: Document -> seq<byte>)
  {
    && Exportable(git, rules.inputs)
    && tree == WithOrigin(Exported(git, rules.inputs), File(render(data), false))
    && data.Metadata? && data.files.Object? && data.fileModes.Some? && data.fileModes.value.Object?
    && data == MetadataFor(rules, commit, data.files.fields, data.fileModes.value.fields)
    && Describes(data.files.fields, data.fileModes.value.fields, Exported(git, rules.inputs), rules.digest)
  }

  lemma ExportedInputs(git: Git, rules: Rules)
    requires Exportable(git, rules.inputs)
    ensures InputNames(Exported(git, rules.inputs).Keys, rules.inputs)
  {
    var entries := git.tree.value;
    WrittenPaths(entries, BlobsFrom(git.stream.value, 0, Ids(entries)).value);
    forall name | name in Paths(entries)
      ensures CheckedPath(name, rules.inputs)
    {
      var entry :| entry in entries && entry.path == name;
      assert IsInputFile(entry, rules.inputs);
    }
  }

  lemma InputsAreNotOrigin(names: set<string>, rules: Rules)
    requires ProperRules(rules) && InputNames(names, rules.inputs)
    ensures names != {} && ORIGIN !in names
  {
    assert Covered(names, rules.inputs[0]);
  }

  /** What an export and its metadata amount to passes the check, whatever the blobs are. */
  lemma ReplacementIsAccepted(tree: Tree, data: Document, git: Git, commit: string, rules: Rules,
                              render: Document -> seq<byte>)
    requires Sound(rules, render) && IsCommit(commit)
    requires IsReplacement(tree, data, git, commit, rules, render)
    ensures Accepts(Snapshot(false, tree), rules, false, false)
  {
    var files := Exported(git, rules.inputs);
    ExportedInputs(git, rules);
    InputsAreNotOrigin(files.Keys, rules);
    DescribedFilesAreAccepted(rules, commit, data.files.fields, data.fileModes.value.fields, files,
                              File(render(data), false));
  }

  lemma NodesBeside(files: map<string, File>, origin: File)
    requires ORIGIN !in files
    ensures var tree := WithOrigin(files, origin);
            && tree.Keys == files.Keys + {ORIGIN} && tree[ORIGIN] == Regular(origin)
            && forall name <- files :: tree[name] == Regular(files[name])
  {
  }

  lemma DescribedAt(hashes: map<string, Json>, modes: map<string, Json>, files: map<string, File>,
                    digest: seq<byte> -> string, name: string, file: File, mode: string)
    requires Describes(hashes, modes, files, digest) && name in files && files[name] == file
    requires KnownMode(mode) && file.executable == (mode == EXECUTABLE)
    ensures name in hashes && hashes[name] == Text(digest(file.content))
    ensures name in modes && modes[name] == Text(mode)
  {
  }

  /** What replaces a snapshot, file by file: at each path of Git's tree the blob the stream has
      for it, executable as its mode says, and beside them ORIGIN.json, which says where all this
      is from and has every file's digest and mode. */
  lemma ReplacementIsGits(tree: Tree, data: Document, git: Git, commit: string, rules: Rules,
                          render: Document -> seq<byte>, blobs: seq<seq<byte>>, i: nat)
    requires ProperRules(rules) && IsReplacement(tree, data, git, commit, rules, render)
    requires BlobsFrom(git.stream.value, 0, Ids(git.tree.value)) == Ok(blobs)
    requires i < |blobs|
    requires forall j :: i < j < |blobs| ==> git.tree.value[j].path != git.tree.value[i].path
    ensures var entry := git.tree.value[i];
            && entry.path in tree && entry.path != ORIGIN
            && tree[entry.path] == Regular(File(blobs[i], entry.mode == "100755"))
            && entry.path in data.files.fields && entry.path in data.fileModes.value.fields
            && data.files.fields[entry.path] == Text(rules.digest(blobs[i]))
            && data.fileModes.value.fields[entry.path] == Text(entry.mode)
    ensures tree.Keys == Paths(git.tree.value) + {ORIGIN}
    ensures ORIGIN in tree && tree[ORIGIN] == Regular(File(render(data), false))
    ensures data.repository == Text(rules.repository) && data.commit == Text(commit)
    ensures data.paths == Texts(rules.inputs)
  {
    var entries := git.tree.value;
    WrittenAt(entries, blobs, i);
    WrittenPaths(entries, blobs);
    ExportedInputs(git, rules);
    InputsAreNotOrigin(Written(entries, blobs).Keys, rules);
    NodesBeside(Written(entries, blobs), File(render(data), false));
    InputModes(entries, rules.inputs);
    DescribedAt(data.files.fields, data.fileModes.value.fields, Written(entries, blobs), rules.digest,
                entries[i].path, File(blobs[i], entries[i].mode == "100755"), entries[i].mode);
  }

  predicate StopsOnStream(git: Git, rules: Rules, mayFail: bool) {
    !mayFail && HasTreeAndStream(git, rules.inputs) && StreamCrashes(git, rules.inputs)
  }

  /** Exports, writes ORIGIN.json and checks the result. */
  method Stage(disk: Disk, git: Git, commit: string, rules: Rules, render: Document -> seq<byte>)
    returns (r: Result<Document, Failure>)
    requires disk.now.staged == Directory(map[]) && IsCommit(commit)
    modifies disk`now, disk`history
    ensures disk.now.staged.Directory? && Apart(disk.now, old(disk.now), Staged)
    ensures r.Ok? ==>
              && IsReplacement(disk.now.staged.nodes, r.value, git, commit, rules, render)
              && Accepts(Snapshot(false, disk.now.staged.nodes), rules, false, false)
    ensures r.Err? ==> disk.mayFail || !Exportable(git, rules.inputs) || !Sound(rules, render)
    ensures StopsOnStream(git, rules, disk.mayFail) ==> r == Err(StreamCrashed)
    ensures old(disk.history) <= disk.history
    ensures OnlyStaging(disk.history, |old(disk.history)|, old(disk.now))
  {
    var exported :- ExportFiles(disk, git, rules);
    var data := MetadataFor(rules, commit, exported.0, exported.1);
    var wrote :- disk.Write(ORIGIN, File(render(data), false));
    ghost var tree := disk.now.staged.nodes;
    assert IsReplacement(tree, data, git, commit, rules, render);
    if Sound(rules, render) {
      ReplacementIsAccepted(tree, data, git, commit, rules, render);
    }
    var checked, first := CheckSnapshot(Snapshot(false, disk.now.staged.nodes), rules, false, false);
    return if checked.Ok? then Ok(data) else Err(SnapshotError);
  }

  lemma HistoryStaysSafe(before: seq<State>, after: seq<State>, start: nat, previous: Place,
                         replacement: Option<Tree>)
    requires before <= after && start <= |before|
    requires AllSafe(before, start, previous, replacement)
    requires AllSafe(after, |before|, previous, replacement)
    ensures AllSafe(after, start, previous, replacement)
  {
    forall i | start <= i < |after|
      ensures Safe(after[i], previous, replacement)
    {
      if i < |before| {
        assert after[i] == before[i];
      }
    }
  }

  /** The renames since `before` are an installation; when none but the staged copy's failed of
      its own, the destination is what was there or the replacement. */
  ghost predicate Installs(disk: Disk, before: seq<Renaming>, previous: Place, replacement: Option<Tree>)
    reads disk
  {
    && before <= disk.renames && IsInstallation(disk.renames, |before|, !previous.Missing?)
    && (OnlyStagedStruck(disk.renames, |before|) ==>
          disk.now.dest == previous || IsReplaced(disk.now.dest, replacement))
  }

  /** The body of the `try`: from an empty staging directory to the replacement in place. */
  method StageAndInstall(disk: Disk, git: Git, commit: string, rules: Rules, render: Document -> seq<byte>)
    returns (r: Result<Document, Failure>, installed: bool, ghost replacement: Option<Tree>)
    requires disk.now.staged == Directory(map[]) && disk.now.backup.Missing? && IsCommit(commit)
    requires disk.now.dest.Missing? || disk.now.dest.Directory?
    modifies disk
    ensures installed == r.Ok?
    ensures r.Ok? ==>
              && replacement.Some?
              && disk.now == State(Directory(replacement.value), Missing, old(disk.now).dest)
              && IsReplacement(replacement.value, r.value, git, commit, rules, render)
    ensures replacement.Some? ==> Accepts(Snapshot(false, replacement.value), rules, false, false)
    ensures replacement.Some? ==>
              exists data :: IsReplacement(replacement.value, data, git, commit, rules, render)
    ensures r.Err? ==> disk.mayFail || !Exportable(git, rules.inputs) || !Sound(rules, render)
    ensures StopsOnStream(git, rules, disk.mayFail) ==> r == Err(StreamCrashed)
    ensures disk.now.backup.Missing? || disk.now.backup == old(disk.now).dest
    ensures disk.now.staged.Missing? || disk.now.staged.Directory?
    ensures Safe(disk.now, old(disk.now).dest, replacement)
    ensures old(disk.history) <= disk.history
    ensures AllSafe(disk.history, |old(disk.history)|, old(disk.now).dest, replacement)
    ensures Installs(disk, old(disk.renames), old(disk.now).dest, replacement)
    ensures r.Err? && !disk.mayFail ==> disk.now.dest == old(disk.now).dest && disk.now.backup.Missing?
  {
    ghost var previous := disk.now.dest;
    installed, replacement := false, None;
    var staged := Stage(disk, git, commit, rules, render);
    if staged.Err? {
      return Err(staged.error), false, None;
    }
    ghost var tree := disk.now.staged.nodes;
    ghost var sofar := disk.history;
    replacement := Some(tree);
    AcceptedIsNotEmpty(tree, rules);
    var inPlace := InstallSnapshot(disk, previous, tree);
    HistoryStaysSafe(sofar, disk.history, |old(disk.history)|, previous, replacement);
    if inPlace.Err? {
      return Err(inPlace.error), false, replacement;
    }
    var interrupted := disk.Fault();
    if interrupted.Some? {
      return Err(interrupted.value), false, replacement;
    }
    return staged, true, replacement;
  }

  lemma AcceptedIsNotEmpty(tree: Tree, rules: Rules)
    requires Accepts(Snapshot(false, tree), rules, false, false)
    ensures tree != map[]
  {
    assert Origin(Snapshot(false, tree), rules, false, false).Some?;
  }

  /** The `finally`: the temporary directory goes, unless it may hold the only copy. */
  method CleanUp(disk: Disk, installed: bool, ghost previous: Place, ghost replacement: Option<Tree>)
    returns (r: Result<(), Failure>)
    requires Safe(disk.now, previous, replacement)
    requires installed ==> IsReplaced(disk.now.dest, replacement)
    requires disk.now.staged.Missing? || disk.now.staged.Directory?
    requires disk.now.backup.Missing? || disk.now.backup.Directory?
    modifies disk`now, disk`history
    ensures disk.now.dest == old(disk.now).dest
    ensures Safe(disk.now, previous, replacement)
    ensures r.Ok? && (installed || old(disk.now).backup.Missing?) ==>
              disk.now.staged.Missing? && disk.now.backup.Missing?
    ensures !installed && !old(disk.now).backup.Missing? ==> disk.now == old(disk.now)
    ensures r.Err? ==> disk.mayFail
    ensures old(disk.history) <= disk.history
    ensures AllSafe(disk.history, |old(disk.history)|, previous, replacement)
  {
    if !installed {
      var kept :- disk.Exists(Backup);
      if kept {
        return Ok(());
      }
    }
    r := disk.RemoveTemporary();
  }

  /** From the temporary directory's making to its removal. */
  method Replace(disk: Disk, git: Git, commit: string, rules: Rules, render: Document -> seq<byte>)
    returns (r: Result<Document, Failure>, ghost replacement: Option<Tree>)
    requires disk.now.staged.Missing? && disk.now.backup.Missing? && IsCommit(commit)
    requires disk.now.dest.Missing? || disk.now.dest.Directory?
    modifies disk
    ensures old(disk.history) <= disk.history
    ensures AllSafe(disk.history, |old(disk.history)|, old(disk.now).dest, replacement)
    ensures Safe(disk.now, old(disk.now).dest, replacement)
    ensures replacement.Some? ==> Accepts(Snapshot(false, replacement.value), rules, false, false)
    ensures replacement.Some? ==>
              exists data :: IsReplacement(replacement.value, data, git, commit, rules, render)
    ensures r.Ok? ==>
              && replacement.Some?
              && disk.now == State(Directory(replacement.value), Missing, Missing)
              && IsReplacement(replacement.value, r.value, git, commit, rules, render)
    ensures r.Err? ==> disk.mayFail || !Exportable(git, rules.inputs) || !Sound(rules, render)
    ensures StopsOnStream(git, rules, disk.mayFail) ==> r == Err(StreamCrashed)
    ensures Installs(disk, old(disk.renames), old(disk.now).dest, replacement)
    ensures r.Err? && !disk.mayFail ==> disk.now == old(disk.now)
  {
    ghost var previous := disk.now.dest;
    replacement := None;
    var made := disk.MakeStaged();
    if made.Err? {
      return Err(made.error), None;
    }
    ghost var started := disk.history;
    var installed: bool;
    r, installed, replacement := StageAndInstall(disk, git, commit, rules, render);
    ghost var tried := disk.history;
    HistoryStaysSafe(started, tried, |old(disk.history)|, previous, replacement);
    var cleaned := CleanUp(disk, installed, previous, replacement);
    HistoryStaysSafe(tried, disk.history, |old(disk.history)|, previous, replacement);
    if cleaned.Err? {
      r := Err(cleaned.error);
    }
  }

  /** `update_snapshot`. The replacement is what has passed the check of the staged copy, if any
      did. The temporary directory is new, so nothing is in it to begin with. */
  method UpdateSnapshot(disk: Disk, git: Git, commit: string, rules: Rules, render: Document -> seq<byte>)
    returns (r: Result<Document, Failure>, ghost replacement: Option<Tree>)
    requires disk.now.staged.Missing? && disk.now.backup.Missing?
    modifies disk
    // At every moment, so after a kill at any of them, and at the end.
    ensures old(disk.history) <= disk.history
    ensures AllSafe(disk.history, |old(disk.history)|, old(disk.now).dest, replacement)
    ensures Safe(disk.now, old(disk.now).dest, replacement)
    ensures replacement.Some? ==> Accepts(Snapshot(false, replacement.value), rules, false, false)
    ensures replacement.Some? ==>
              exists data :: IsReplacement(replacement.value, data, git, commit, rules, render)
    // A destination that is not a snapshot in good order is never touched.
    ensures !Replaceable(old(disk.now).dest, rules) ==>
              r.Err? && disk.now == old(disk.now) && disk.history == old(disk.history)
    // Success is Git's files in place, nothing left over.
    ensures r.Ok? ==>
              && replacement.Some?
              && disk.now == State(Directory(replacement.value), Missing, Missing)
              && git.resolved == Ok(commit) && IsCommit(commit)
              && IsReplacement(replacement.value, r.value, git, commit, rules, render)
    // And nothing else makes it fail.
    ensures r.Err? ==>
              || disk.mayFail
              || !IsCommit(commit) || git.resolved != Ok(commit)
              || !Replaceable(old(disk.now).dest, rules)
              || !Exportable(git, rules.inputs) || !Sound(rules, render)
    // What was there goes back if the staged copy does not get to its place: whatever else fails,
    // as long as no other rename does, the destination is what was there or the replacement.
    ensures Installs(disk, old(disk.renames), old(disk.now).dest, replacement)
    // Where nothing fails of its own, an update that is refused leaves nothing behind.
    ensures r.Err? && !disk.mayFail ==> disk.now == old(disk.now)
    // A stream Python itself trips over stops an update that nothing else would have stopped.
    ensures IsCommit(commit) && git.resolved == Ok(commit) && Replaceable(old(disk.now).dest, rules) ==>
              StopsOnStream(git, rules, disk.mayFail) ==> r == Err(StreamCrashed)
  {
    replacement := None;
    if !IsCommit(commit) || git.resolved != Ok(commit) {
      return Err(SnapshotError), None;
    }
    var ready, first := CheckDestination(disk, rules);
    if ready.Err? {
      return Err(ready.error), None;
    }
    OnlyDirectoriesAreReplaced(disk.now.dest, rules);
    r, replacement := Replace(disk, git, commit, rules, render);
  }

  /** Nothing is replaced but a snapshot in good order; the parent and the temporary directory
      are made after that. */
  method CheckDestination(disk: Disk, rules: Rules) returns (r: Result<(), Failure>, ghost first: string)
    ensures r.Ok? ==> Replaceable(disk.now.dest, rules)
    ensures r.Err? ==> disk.mayFail || !Replaceable(disk.now.dest, rules)
    ensures r == Err(CheckCrashed) ==> Trips(SnapshotAt(disk.now.dest), rules, true, false, first)
    ensures Trips(SnapshotAt(disk.now.dest), rules, true, false, first) && !disk.mayFail ==> r == Err(CheckCrashed)
  {
    first := "";
    var there := disk.Exists(Dest);
    if there.Err? {
      return Err(there.error), first;
    }
    if there.value {
      var checked;
      checked, first := CheckSnapshot(SnapshotAt(disk.now.dest), rules, true, false);
      if checked.Err? {
        return Err(if checked.error == Crashed then CheckCrashed else SnapshotError), first;
      }
    }
    var fault := disk.Fault();
    return if fault.Some? then Err(fault.value) else Ok(()), first;
  }
}
