# Peios Rust SDK: a verified model of its protocols and codecs

Most of this repository wraps a C library. The code modelled here is the part
whose correctness is decided in the repository itself, by loops, ordering and
byte formats:

- **Event rings** (`EventFormat`, `RingMemory`, `EventRings`). A reader copies a
  record out of memory that the kernel's producer keeps overwriting, and checks
  the tail and the generation afterwards. The producer is a step relation over
  memory, counters and a log of what was published; the reader is
  `EventRing::event_at` as its sequence of loads, with any number of producer
  steps before each load and before each copied byte. What is proved therefore
  holds of every interleaving. The drain loop the ring's documentation
  prescribes is built on top.
- **Registry tree deletion** (`KeyTree`): dense enumeration, the recursive
  post-order `gather`, and the deletion run against a store that refuses to
  delete a key with children and may fail at any call.
- **Registry parsers** (`WatchEvents`, `ValueRecords`) and **value data**
  (`ValueData`, `ListEnds`, `Utf8`, `Bytes`): what is accepted, exactly, and what
  is read.
- **Retry loops** (`Probing`) and the one-shot batch read (`ValuesBatch`) over an
  object that another process may change before every call. The environment keeps
  the history of what the object held at each call, and the contracts are about
  that history.
- **Layers** (`Layers`): creating a layer as one transaction, reading, setting
  and listing layers.
- **The kernel-input updater** (`BatchStream`, `SnapshotPaths`, `Snapshots`,
  `KernelInputs`, `Disks`, `Updater`): the Git batch-stream parser, the check of
  a snapshot against its metadata, and the replacement of one snapshot by
  another. `Disks.Disk` keeps the history of every state of the file system, any
  call on it may fail or be interrupted before or after it takes effect, and the
  safety property is about all of that history, which covers a process killed at
  any point.

`dafny verify dfyconfig.toml` checks the project.

Conventions: a Rust `String` is modelled by its UTF-8 bytes, checked against the
grammar of section 4 of RFC 3629. Errors are values (`Wrappers.Result`).
Environments whose calls may fail carry a constant `mayFail`; a failure that is
not explained by the environment's state is possible only when it is true, which
is how the contracts can say that nothing else stops an operation.

Where the code and its documentation disagree, the model follows the code:

- `query_value` and `get_security` say they retry once; the loops make up to four
  attempts (`peios/src/registry.rs:543-544`, `peios/src/registry.rs:961-962`).
  `Probing.RetriesExactly` and `Probing.RefillsExactly` say after which calls another
  follows; `Probing.ValueRetriedTwice` and `Probing.DescriptorRefilledTwice` are
  histories with more than one retry.
- `Data::MultiSz` says two NULs in a row end a list
  (`peios/src/registry/data.rs:36-37`); `strings` skips the empty piece and reads
  on. `ListEnds.ListGoesOnAfterTwoNuls` is a list where the two differ, and
  `ListEnds.ListEndsAsDocumentedExactly` says when they agree: exactly when
  nothing but NULs follows a NUL that comes first or after another one. `decode`
  is said to forgive a missing or doubled terminating NUL; it forgives any number
  (`ListEnds.TerminatorsAreForgiven`).
- Legacy snapshot metadata that has `"file_modes": null` passes the metadata
  check and then raises `AttributeError` while the files are compared
  (`tools/update-kernel-inputs.py:158-160`, `tools/update-kernel-inputs.py:197`).
  `Snapshots.CheckSnapshot` says exactly when (`Snapshots.Trips`),
  `Snapshots.NullModesTrip` that it happens to every legacy snapshot otherwise in
  good order, and `KernelInputs.LegacyNullModesTrip` gives one for
  any digest and any two texts that are read as the two forms of the metadata.
- A batch-stream header that is not ASCII, or whose size is a word but no
  integer, likewise raises Python's own exception rather than the updater's
  (`tools/update-kernel-inputs.py:105-108`). `Updater.ExportFiles` says exactly
  when an export ends so, in terms of the stream; `BatchStream.FailsExactly` which
  streams those are; `BatchStream.NotAsciiHeader` and
  `BatchStream.NotIntegerHeader` give one of each. Neither exception touches the
  destination (`Updater.UpdateSnapshot`).

## Model

| member | source | states |
|---|---|---|
| RingMemory.MaskIsRemainder | peios/src/event.rs:401-408 | masking a free-running position with a power-of-two capacity less one is its remainder |
| RingMemory.SlotsAreDisjoint | peios/src/event.rs:401-408 | two positions less than a capacity apart never share a slot |
| RingMemory.StepKeepsInv | peios/src/event.rs:426-448 | every producer step (move the tail, write a byte, publish, resize) keeps the ring's invariant, and within a generation withdraws or moves nothing published |
| RingMemory.RunKeepsInv | peios/src/event.rs:426-448 | the invariant holds at every moment of every run of the producer |
| RingMemory.RecordCanBePublished | peios/src/event.rs:426-448 | a producer with room is never stuck: some run writes and publishes any given record, so the properties below are not about an empty log |
| RingMemory.SnapshotIsNotTorn | peios/src/event.rs:462-487 | over every interleaving: bytes loaded one at a time, each at a moment of its own, are the published ones if afterwards the tail has not passed the first of them and the generation is unchanged |
| EventFormat.PublishedDecodes | vendor/kernel/include/uapi/pkm/kmes.h:110-137 | a published record, whatever follows it, decodes to exactly its event and its size |
| EventFormat.HeaderRoundTrip | vendor/kernel/include/uapi/pkm/kmes.h:118-148 | the 77 header bytes decode to the fields they were made from, each at its offset |
| EventFormat.EventFieldsStand | vendor/kernel/include/uapi/pkm/kmes.h:118-148 | each field of a decoded event is what stands at its own offset of the header; the type string stands after the 77 bytes, the payload from the header size to the record's end |
| EventFormat.OriginsByNumber | peios/src/event.rs:44-54 | each origin class is one number and every other number is itself |
| RingMemory.WindowStartsWithRecord | peios/src/event.rs:456-487 | the published bytes between two record boundaries decode to the first record among them |
| EventRings.SharedRing.RunProducer | peios/src/event.rs:426-448 | any number of producer steps of any kind: the ring only moves forward |
| EventRings.EventRing.CopyEventBytes | peios/src/event.rs:291-298 | a copy made byte by byte under interference stays in the mapping and holds the published byte at every position that was published before it and is not given up after it |
| EventRings.EventRing.FromRaw | peios/src/event.rs:265-284 | if the tail has not passed the position by then, the owned event, or the rejection of its type string, is that of the published bytes |
| EventRings.EventRing.Snapshot | peios/src/event.rs:467-480 | likewise for everything between the two checks: rejected header, record longer than the window, or event, the outcome is what the published window decodes to |
| EventRings.EventRing.EventAt | peios/src/event.rs:462-487 | for any read position: EAGAIN exactly when one of the call's loads told that the slot is empty or overwritten or that the generation changed; any other outcome is of loads in the source's order, from the generation loaded first to the generation loaded last, all of one ring; through a mapping that is still current, EAGAIN means that the slot was empty or is overwritten, and any other outcome is what the published bytes decode to: at a record boundary exactly that record's event and size, never an error |
| EventRings.OutcomeAtBoundary | peios/src/event.rs:456-487 | from the start of a published record no bad size, header or text from a torn copy escapes, and adding the returned size reaches the next boundary |
| EventRings.PublishedIsRead | peios/src/event.rs:456-487 | end to end: with room for it every well-formed record can be published, and the outcome at its position is then exactly its event and its size |
| EventRings.Consumer.Poll | peios/src/event.rs:401-409 | every turn of the drain keeps the progress invariant; while the mapping is current it never fails, delivers at most one event, moves only forward, jumps only to the tail and is idle only if there was nothing to read; a turn that begins after a resize delivers an event or finds the resize out |
| EventRings.Consumer.AfterNothing | peios/src/event.rs:401-409 | with no event it is resized, lapped (and then stands at the tail) or empty; after a resize it is always resized |
| EventRings.ProgressDelivers | peios/src/event.rs:456-461 | delivering keeps the position on a record boundary and the delivered events an in-order, duplicate-free subsequence of the published records |
| EventRings.ProgressJumps | peios/src/event.rs:401-409 | jumping to the tail passes over records the tail has overtaken, and no others |
| KeyTree.ChildrenComeFirst | peios/src/registry.rs:856-875 | the post-order invariant: when a key is reached, all its children that are there have been |
| KeyTree.PostOrderCovers | peios/src/registry.rs:856-875 | every key that is there is reached |
| KeyTree.PostOrderNoRepeats | peios/src/registry.rs:856-875 | no key is reached twice |
| KeyTree.ReadyToDelete | peios/src/registry.rs:846-854 | once the keys before it in the order are gone, the next one is there and has no children |
| KeyTree.DeleteKeepsClosed | peios/src/registry.rs:822-829 | deleting a key without children leaves no key without its parent |
| KeyTree.Subkeys.Next | peios/src/registry.rs:1250-1272 | one living child per call, by its index; after the end or an error, nothing more |
| KeyTree.CollectNames | peios/src/registry.rs:858-862 | exactly the names of the living children, in order, or the first error |
| KeyTree.Gather | peios/src/registry.rs:858-875 | appends the living keys under a key in post-order, all of them openable by name; opens exactly those keys and does nothing else; fails only for the store or for a living key whose name is not UTF-8 or holds a NUL |
| KeyTree.DeleteTree | peios/src/registry.rs:846-854 | however it ends, exactly the first `k` post-order keys are gone and the rest is closed under parent; nothing is deleted before all is open; success removes exactly the subtree and returns its size; a living key under it that cannot be opened by its name makes it fail with nothing deleted, and only that, a key already gone or the store's failures make it fail |
| KeyTree.WholeSubtree | peios/src/registry.rs:846-854 | the whole order is the whole subtree, and its length is the number of keys there |
| WatchEvents.WriteRecord | peios/src/registry.rs:1408-1424 | the test encoder, zero length first and patched last, writes the record format |
| WatchEvents.ParseWatchEvents | peios/src/registry.rs:1073-1103 | the imperative parser, every slice in bounds, refines the recursive reading of the format |
| WatchEvents.ParseWatchPath | peios/src/registry.rs:1105-1133 | likewise for the nested path |
| WatchEvents.WatchRoundTrip | peios/src/registry.rs:1073-1140 | for every list of well-formed records, parsing their concatenated encodings returns exactly their events, an absent extension and a depth-0 one both meaning the empty path |
| WatchEvents.AcceptsExactlyRecords | peios/src/registry.rs:1073-1133 | a buffer parses to a list of events exactly when it is a concatenation of well-formed records with those events |
| WatchEvents.EncodingIsUnambiguous | peios/src/registry.rs:1073-1133 | no two lists of well-formed records have the same bytes |
| WatchEvents.ParseDistributes | peios/src/registry.rs:1073-1103 | parsing an accepted buffer followed by any other is parsing each in turn |
| WatchEvents.RecordFieldsStand | vendor/kernel/include/uapi/pkm/lcs.h:410-418 | each part of an accepted record is what stands at its own offset: length, type, name, and behind the name the path's depth and its first component |
| WatchEvents.TypesByNumber | peios/src/registry.rs:101-114 | each event type is one number and every other number is itself |
| ValueRecords.ParseTurn | peios/src/registry.rs:1322-1341 | one turn of the loop reads one record and leaves the cursor within the buffer |
| ValueRecords.ParseValueRecords | peios/src/registry.rs:1312-1343 | the cursor loop refines the recursive reading |
| ValueRecords.RecordReadExactly | peios/src/registry.rs:1322-1341 | a record is read at a position, ending at another, exactly when it is well-formed and its encoding stands between them |
| ValueRecords.FieldsReadExactly | peios/src/registry.rs:1322-1341 | a record is read exactly when its five fields stand at their places one after another |
| ValueRecords.RecordsReadExactly | peios/src/registry.rs:1312-1343 | a list is read exactly when it has `count` well-formed records and their packed encoding stands there, whatever follows |
| ValueRecords.BatchRoundTrip | peios/src/registry.rs:1310-1343 | packed records followed by any bytes are read back as they were |
| ValueRecords.BatchAcceptsExactly | peios/src/registry.rs:1312-1343 | success exactly when the buffer starts with `count` well-formed records |
| Utf8.ValidAroundAscii | peios/src/registry/data.rs:124-137 | no UTF-8 character straddles an ASCII byte, so text is valid exactly when both sides of one are |
| Utf8.ValidExactly | peios/src/registry/data.rs:124-137 | the grammar is UTF-8: text is valid exactly when it is the encoding of some sequence of Unicode scalar values |
| ValueData.Encode | peios/src/registry/data.rs:96-119 | the encoder's pushes and loop write the encoding that `ListEnds.StoredAsDocumentedExactly` characterises |
| ListEnds.StoredAsDocumentedExactly | peios/src/registry/data.rs:6-16 | canonical data is stored in its documented form and that form is the only one: a string ends in its only NUL; a list reads as documented up to an end that is its last byte; each number has its bytes in their order |
| ListEnds.StringReadExactly | peios/src/registry/data.rs:124-128 | a buffer decodes to a string exactly when it is that text followed by NULs and nothing else |
| ListEnds.NumberReadExactly | peios/src/registry/data.rs:54-93 | a buffer decodes to a number exactly when it has the width and the number is that of its bytes, in the type's order |
| ListEnds.PiecesRejoin | peios/src/registry/data.rs:131-137 | the pieces a list is split into are what stands between its NULs |
| ValueData.StringAcceptsExactly | peios/src/registry/data.rs:124-128 | a string is accepted exactly when the whole buffer is UTF-8 whose only NULs form a trailing run |
| ValueData.ListAcceptsExactly | peios/src/registry/data.rs:131-137 | checking a list piece by piece accepts exactly the valid UTF-8 buffers |
| ListEnds.ListEndsAsDocumentedExactly | peios/src/registry/data.rs:36-38 | of valid data, the list the code reads is the documented one, ending at two NULs in a row, exactly when nothing but NULs follows that end |
| ListEnds.ListGoesOnAfterTwoNuls | peios/src/registry/data.rs:131-137 | data whose list the code reads on after its documented end |
| ListEnds.TerminatorsAreForgiven | peios/src/registry/data.rs:124-128 | a string may end in any number of NULs, none included |
| ValueData.DecodeIsCanonical | peios/src/registry/data.rs:54-93 | decoding keeps the type, yields only canonical data, and keeps raw bytes exactly when they do not decode |
| ValueData.DataRoundTrip | peios/src/registry/data.rs:54-119 | data survives encoding and decoding exactly when it is canonical: no NUL inside a string, no empty or NUL-holding list item, no raw bytes that would decode |
| ValueData.NulInsideIsLost | peios/src/registry/data.rs:99-103 | an input that does not survive: a string with a NUL inside |
| ValueData.NormalForm | peios/src/registry/data.rs:54-119 | decoding what decoding and encoding produced changes nothing, for all types and bytes |
| ValueData.SameString | peios/src/registry/data.rs:124-128 | two buffers decode to one string exactly when both are valid and equal but for trailing NULs |
| ValueData.SameList | peios/src/registry/data.rs:131-137 | two buffers decode to one list exactly when both are valid and their non-empty pieces agree |
| Probing.Probe | peios/src/util.rs:62-83 | at most 9 calls; the bytes are the object's at the fill or, for an empty buffer, at the size probe before it; every attempt but the last was outgrown between its probe and its fill, and ERANGE means that four were |
| Probing.ProbeStr | peios/src/util.rs:90-108 | likewise with the NUL-exclusive length; the string is always the contents at the fill; EINVAL only if those are not UTF-8 |
| Probing.SteadyObjectIsRead | peios/src/util.rs:55-83 | if the object itself does not fail, the first attempt in which it is no larger at the fill than at the probe is the last, and what it holds at that fill is the result |
| Probing.SteadyStringIsRead | peios/src/util.rs:85-108 | likewise for a string: it is the result if it is UTF-8, and EINVAL otherwise |
| Probing.GetSecurity | peios/src/registry.rs:960-1005 | the descriptor is one moment's; every fill is made for the size last reported and every fill but the last was outgrown; ERANGE only if all four were |
| Probing.RefillsExactly | peios/src/registry.rs:960-1005 | if the call itself does not fail, a fill always follows the first call, and another fill exactly one of the first three that the descriptor did not fit and that said so, which one with capacity always does; the last call decides the result |
| Probing.DescriptorRefilledTwice | peios/src/registry.rs:961-983 | any descriptor that grows before its first fill and before its second has a history of four calls that ends in success |
| Probing.SteadyDescriptorIsRead | peios/src/registry.rs:982-1003 | a descriptor no larger at a fill than at the call before is the result |
| Probing.QueryValue | peios/src/registry.rs:539-582 | sequence, type, data and layer all come from one reading; every call but the last found an entry that did not fit and the next one was made for its sizes; success only with the entry of a call it fitted, ENOENT only if there was no entry, ERANGE only if the entry outgrew its last reported sizes on every retry |
| Probing.RetriesExactly | peios/src/registry.rs:543-582 | if the object itself does not fail, another call follows exactly one of the first three that found an entry that did not fit; the last call decides the result: ENOENT, its entry, or ERANGE after the fourth |
| Probing.ValueRetriedTwice | peios/src/registry.rs:543-547 | any value that grows before its first read and before the retry has a history of four calls that ends in success |
| Probing.SteadyValueIsRead | peios/src/registry.rs:563-580 | an entry that fits at some call is the result, and that call the last |
| Probing.SettledValueIsRead | peios/src/registry.rs:563-580 | reading succeeds once growth stops: an entry no larger in data and layer than at the call before is the result |
| ValuesBatch.QueryValuesBatch | peios/src/registry.rs:631-670 | success exactly when the values at the fill fit what the probe reported, and then it is all of those values; ERANGE when they outgrew it; EINVAL exactly when the probe reported no bytes, values were added since and the fill without capacity was answered like a probe |
| ValuesBatch.ParseFilled | peios/src/registry.rs:658-669 | what fits is parsed back to the values, and a count without bytes is EINVAL |
| Layers.Transaction.Commit | peios/src/registry.rs:398-412 | a commit makes all of the transaction's view the registry's, or fails, changes nothing and closes the transaction |
| Layers.Create | peios/src/registry/layers.rs:146-195 | all or nothing wherever it fails; the empty name, a name with either slash and any spelling of the base layer's are refused; success adds the layer's key, both values and missing parents; each error is accounted for by the name, the contents or a failed call, and nothing else stops it |
| Layers.SameKeyExactly | peios/src/registry/layers.rs:146-156 | two names are the same layer's key exactly when they differ in case at most |
| Layers.OpenLayers | peios/src/registry/layers.rs:151-174 | the keys above are opened, or made inside the transaction from the one that is always there |
| Layers.Read | peios/src/registry/layers.rs:94-139 | three reads in turn show each value the key's bytes hold in good form: a precedence or enabled state of four bytes, the latter at most 1, and an owner that is a SID; what is missing or malformed is precedence 0, enabled and no owner; `malformed` exactly when one that is there is malformed |
| Layers.LayerReadExactly | peios/src/registry/layers.rs:3-20 | the values' bytes determine the layer: it is read exactly as they describe it |
| Layers.CreatedReadsBack | peios/src/registry/layers.rs:94-195 | after `create`, `read` gives the precedence and state asked for, not malformed, and no other key is different |
| Layers.Set | peios/src/registry/layers.rs:230-237 | one value of one existing layer changes and nothing else; the base layer is refused |
| Layers.SetPrecedenceReadsBack | peios/src/registry/layers.rs:198-205 | a precedence that was set is read back whatever was there, and the rest of the layer as before |
| Layers.SetEnabledReadsBack | peios/src/registry/layers.rs:208-215 | likewise for the enabled state |
| Layers.List | peios/src/registry/layers.rs:58-91 | every enumerated layer is read and arranged; ENOENT for the key above them is no layers, any other enumeration error is returned, and otherwise only a named layer that is not there or cannot be, or a failed call, stops it |
| Layers.ListIsComplete | peios/src/registry/layers.rs:76-90 | the list is sorted; it is every layer read, as often as it was read, but for any key of the base layer, whose place the base layer takes exactly once |
| Layers.SortedMeans | peios/src/registry/layers.rs:86-90 | in a sorted list no precedence is followed by a higher one, and among equal ones names come in the order of their characters, without regard to case |
| BatchStream.GitStreamRoundTrip | tools/update-kernel-inputs.py:94-120 | for all object lists and all blob contents, exactly the blobs come back from Git's stream |
| BatchStream.AcceptsExactlyPartitions | tools/update-kernel-inputs.py:103-120 | a stream yields given blobs exactly when it is, to its last byte, header, newline, blob, newline for each object with a header that names it and its size |
| BatchStream.GitLineIsHeader | tools/update-kernel-inputs.py:104-108 | Git's `id blob size` line is a header for that object and size |
| BatchStream.FailsExactly | tools/update-kernel-inputs.py:103-120 | a stream fails with a given error exactly when that is what is wrong with the first entry that does not stand in it, or all entries stand and something follows them |
| BatchStream.NextFailsExactly | tools/update-kernel-inputs.py:103-114 | what is wrong with an entry: a byte of 128 or more in its header; a header without a newline or that is not the object, `blob` and a word; that word no integer; or no blob of that size and newline after it |
| BatchStream.NotAsciiHeader | tools/update-kernel-inputs.py:105 | a stream that ends in Python's decoding error |
| BatchStream.NotIntegerHeader | tools/update-kernel-inputs.py:108 | streams that end in Python's integer error: any header for the object whose size is a word but no integer |
| BatchStream.IntegersExactly | tools/update-kernel-inputs.py:108 | a size is an integer exactly when it is digits with single underscores between them, after a sign or without one |
| SnapshotPaths.CheckedPathExactly | tools/update-kernel-inputs.py:65-72 | a path passes exactly when all its components are entry names and it starts with all of a root's components |
| SnapshotPaths.CheckedPathStaysInside | tools/update-kernel-inputs.py:65-72 | following a path that passes never leaves the snapshot and ends under a root |
| Snapshots.CheckOrigin | tools/update-kernel-inputs.py:143-164 | the chain of metadata checks decides the declarative condition on ORIGIN.json |
| Snapshots.CheckSnapshot | tools/update-kernel-inputs.py:168-207 | success exactly when the metadata is good and file set, digests, modes and roots agree with it; the unintended exception exactly when legacy metadata with null modes is good, the file set agrees and the digest of the file compared first matches |
| Snapshots.AcceptedIsAsDeclared | tools/update-kernel-inputs.py:143-206 | of an accepted snapshot: its metadata names the repository, an exact commit and the declared roots; every root it lists has a file below it; its files are those listed, with the digests listed and, where modes count, the modes |
| Snapshots.NullModesTrip | tools/update-kernel-inputs.py:158-197 | a legacy snapshot accepted without modes trips the check, whatever file is compared first, when its metadata has a null in their place |
| Snapshots.AnyChangeIsRefused | tools/update-kernel-inputs.py:168-207 | beside the same ORIGIN.json, legacy or not, a snapshot is accepted exactly when it is unchanged: contents, file set, links and, where modes are kept, executable bits, unless the digest collides on two contents of one name |
| Snapshots.AcceptedFilesStayInside | tools/update-kernel-inputs.py:131-207 | every file of an accepted snapshot lies under a declared root |
| Snapshots.BazelTransportIsAccepted | tools/update-kernel-inputs.py:177-200 | a transport of an accepted snapshot through file links and other modes passes the check of Bazel's inputs |
| Snapshots.BazelInputsExactly | tools/update-kernel-inputs.py:177-200 | beside the same metadata the check of Bazel's inputs accepts exactly the transports that keep an accepted snapshot's names and contents, unless the digest collides |
| KernelInputs.KernelRulesAreProper | tools/update-kernel-inputs.py:17-29 | the declared roots consist of entry names and do not cover ORIGIN.json, so the properties stated for proper rules hold of them |
| KernelInputs.KernelFilesStayInside | tools/update-kernel-inputs.py:131-207 | every file of a snapshot the updater accepts lies inside one of its declared roots |
| KernelInputs.KernelRulesAreSound | tools/update-kernel-inputs.py:17-29 | with the declared roots, what `UpdateSnapshot` requires for success comes down to digests being digests and JSON being read as written |
| KernelInputs.LegacyNullModesTrip | tools/update-kernel-inputs.py:158-197 | whatever the digest and the JSON reader: the snapshot of empty files at the declared source roots is accepted with legacy metadata without modes, and trips the check with metadata that differs by a null in their place |
| Updater.TreeEntries | tools/update-kernel-inputs.py:75-91 | entries are taken exactly when they are an input tree, as `Updater.InputTreeExactly` characterises it |
| Updater.InputTreeExactly | tools/update-kernel-inputs.py:65-91 | a tree is an input tree exactly when every entry is a blob with a regular file's mode, at a path of entry names below a root, and every root has one |
| Updater.ExportEntries | tools/update-kernel-inputs.py:99-119 | the files written and the hashes and modes returned are those of the stream's blobs; a failure is the disk's, or the one that what is wrong with the stream calls for |
| Updater.ExportFiles | tools/update-kernel-inputs.py:94-128 | success writes exactly Git's files with metadata that describes them, touching nothing but the staging directory at any moment; which failure it is otherwise, Python's own exceptions exactly for a header that is not ASCII or a size that is no integer |
| Updater.ReplacementIsAccepted | tools/update-kernel-inputs.py:94-207 | what export writes with the metadata it returns is accepted by the check, whatever the blobs |
| Updater.ReplacementIsGits | tools/update-kernel-inputs.py:94-128 | a replacement, file by file: at each path of Git's tree its blob, executable as its mode says; beside them ORIGIN.json with the repository, the commit, the roots, and each file's digest and mode; and nothing else |
| Updater.InstallSnapshot | tools/update-kernel-inputs.py:210-220 | every state on the way is safe; the renames tried are those of the source in its order, the one back exactly after the one aside succeeded and the next failed; if no rename but the staged copy's fails of its own, the destination is what was there or the replacement |
| Updater.StageAndInstall | tools/update-kernel-inputs.py:236-242 | only a staged copy that passed the check is ever moved to the destination |
| Updater.CheckDestination | tools/update-kernel-inputs.py:226-230 | only nothing or a snapshot in good order is replaced; when the check trips, the exception is the check's |
| Updater.CleanUp | tools/update-kernel-inputs.py:243-250 | removing the temporary directory, entry by entry and interrupted anywhere, never removes the only copy |
| Updater.UpdateSnapshot | tools/update-kernel-inputs.py:223-250 | at every moment: the destination is what was there, nothing, or the whole verified replacement, and a previous snapshot is whole there or in the backup unless the replacement is in place; a destination not in good order is never touched; success is Git's files in place and nothing left over, and nothing else makes it fail; whatever else fails, unless a rename other than the staged copy's does, the destination ends as what was there or the replacement; where nothing fails of its own, an update that is refused changes nothing |
| Disks.Disk.Rename | tools/update-kernel-inputs.py:213-219 | a rename is atomic; an error does not tell whether it took effect |
| Disks.Disk.RemoveTemporary | tools/update-kernel-inputs.py:248 | the two parts go in either order, one entry at a time, and the destination does not change |

## Left out

- EventRings.EventRing.EventAt: what its outcome means is stated for a mapping that is current when the call returns; a ring resized before the call is detected only by the caller's own comparison with the generation it mapped, since `event_at` compares two loads of its own.
- EventRings.Consumer.Poll: likewise says nothing of what is delivered from a mapping that is no longer current.
- EventRings.EventRing.ParseAt: libpeios' parse is not part of this model; it is taken to check, on its own copy, that type string and payload lie within the record and the ring, as the call's comment states.
- The producer is kernel code that is not part of this model; its steps keep to what the accessors' comments and the re-checks of `event_at` rely on: the tail passes a slot before it is written again, the write position passes a record once its bytes are there, and a resize raises the generation.
- Weak memory: loads and stores are sequentially consistent steps; the fence and the acquire loads are not modelled separately.
- Counters, generations, timestamps and lengths are unbounded integers; wrap-around of 64-bit counters and of 32-bit lengths and iterator indexes is not modelled.
- `EventRing::wait`, wake flags, `EventReader`, `EventPolicy` and emission.
- Layers.Registry.Open: one client, one layer view and ASCII case folding; access rights, symlinks and other clients' writes are not modelled.
- Layers.List: the names come from an enumeration given as a parameter; `String::from_utf8_lossy` is not modelled, and the library sort is an insertion sort of the same order.
- Layers.Read: whether bytes are a SID is a parameter.
- KeyTree.DeleteTree: no transaction and no concurrent change; a transaction's limit on operations and descriptors' limits are store failures.
- `enum_value`, `enum_subkey` and `info` have the loop of `query_value` over other fields, and `Values` is `Subkeys` over values.
- ValuesBatch.QueryValuesBatch: whether the library answers a call without capacity with success or ERANGE is left open, as its comment does; the EINVAL outcome occurs only if it may be success.
- Probing.GetSecurity: the descriptor is its bytes; its format is not part of this model.
- `sys::peios_*` calls, MessagePack, SIDs, ACLs, SDDL, tokens, sockets, files and processes are not part of this model.
- BatchStream.IntOf: Python's limit on the number of digits of an integer is not modelled.
- Snapshots.CheckSnapshot: the order in which a JSON document lists its files is left open, so the file compared first is any of them; JSON text is a reading function from bytes to a document, and the digest a function to text; files that cannot be read raise `OSError`, which is left out. Directories are not entries: a snapshot is the set of everything else below it.
- Disks.Disk.Write: a file's parent directories are made with it, and a path that is a file and another's parent, which a Git tree cannot hold, is not modelled.
- Updater.UpdateSnapshot: one updater at a time, and nothing else touches the destination; Git's processes are a given commit, tree and stream, each of which may be an error. An empty temporary directory that an early failure leaves behind is not counted.
- `main`, argument parsing and messages.
