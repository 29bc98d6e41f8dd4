# Timelapse: a verified model of its core

Timelapse keeps checkpoints of a working copy in a content-addressed store, watches the file
system for changes, and publishes checkpoints as jj commits. This project models the parts
where something could silently be lost or go stale, and proves what they keep. Every module
shares one vocabulary of hashes, paths, entries, trees and checkpoints (`Objects`).

`dafny verify dfyconfig.toml` checks everything.

## What is modelled

| module | piece of the system |
|---|---|
| `Objects` | entries, Git modes, trees, checkpoints |
| `Sorting`, `ByteOrder`, `Numerals` | sorting by name whatever a hash map's iteration order, octal and decimal numerals |
| `TreeCodec`, `HexNames`, `ObjectStore` | the Git tree bytes with both serialisers and the parser, hexadecimal names, the store with its tree cache |
| `PathMapFile` | the path map and its PMV2 file |
| `Reachability`, `AheadBehind` | reachability in finite graphs, counting commits ahead and behind |
| `CivilDate` | dates from timestamps |
| `JournalLog`, `Integrity`, `GarbageCollection`, `LiveContents` | the checkpoint journal, its check and repair, mark and sweep, and what that keeps path by path |
| `TreeDiff`, `Incremental`, `SharedStore` | differences of trees, the incremental tree update, and the update after a collection |
| `SeedTree` | the seed tree of publishing under the collector |
| `Materialize`, `WorkingCopy` | conversion to jj trees, and what it shows of the working copy |
| `PublishRange`, `PublishChain`, `PublishLineage` | ranges of commits, the choice of what to publish, commit ancestry over whole histories of publishing |
| `Debounce`, `DebounceTiming`, `DebounceQuiet`, `Coalesce` | the watcher pipeline |
| `ConflictMarkers`, `ConflictRoundTrip` | conflict blocks, written and parsed |

The parts that change state step by step are classes and loops (`Journal`, `Store`, `PathMap`,
`Coalescer`, the walks, the parsers); each method is proved against a function or relation on
values, and the results are proved about those. The debouncer is a system of steps, because its
timer tasks interleave with pushes and flushes.

The digest, the compression, UTF-8 decoding and jj's path check are parameters. Where a result
needs them to be lossless or collision-free on the trees at hand, it says so.

## Where the code does less than it promises

These are results of the model: a lemma gives an input for each, and mostly another one the exact
condition, in both directions, under which the code does keep the promise.

- A journal report can be healthy although two ids share one record (`Integrity.HealthyAloneIsNotEnough`);
  with as many index entries as records it means exactly an inverse index (`Integrity.HealthyIffInverse`).
- `repair` only rebuilds the index for orphaned or missing entries. A damaged record that is still
  indexed is removed and its index entry left dangling (`Integrity.RepairLeavesDanglingIndex`);
  `Integrity.RepairHealsExactlyWhen` has the exact condition.
- `incremental_update` keeps a stale entry when a file becomes unreadable or a directory (`Incremental.DirectoryIsMissed`)
  or when a link's target bytes hash like the entry they replace (`Incremental.SymlinkSwapIsMissed`), and records a path
  such as `./.git/x` because ignoring is decided before normalising (`Incremental.IgnoredPathSlipsThrough`);
  `Incremental.RefinesFullScanExactly` has the condition.
- Once the sweep uses the location where blobs are written (see the last point), it deletes their files without telling
  the blob cache, and an update trusts the cache (`SharedStore.SweptBlobIsReused`, `SharedStore.CollectThenUpdate`).
- Marking starts from checkpoints only, so a collection may delete the tree recorded as the seed, and root checkpoints can
  no longer be published on the seed commit (`SeedTree.EmptySeedIsCollected`, `SeedTree.RootIsPublishedExactly`).
- A path that is not UTF-8 is passed over when the seed is compared (`Materialize.DiffPathsCoverExactly`).
- An incremental conversion leaves a file in place that a subtree entry replaced (`Materialize.SubtreeEntryIsNotRemoved`).
- When the walk to a published ancestor gives up, for instance because the parent is no longer in the journal, paths
  are accumulated to where the chain ends but applied to the seed commit (`PublishChain.CollectedParentIsPublishedWrong`);
  `PublishChain.PublishCommandIsRightExactly` and `PublishChain.GaveUpFitsExactly` have the condition. Compact mode applies the
  first checkpoint's paths to the last one (`PublishChain.CompactMissesLaterChanges`, `PublishChain.CompactIsRightExactly`).
- The debouncer's documentation promises emission after a quiet period; the second timer stage emits without looking at
  the time, so only "within two debounce durations" is claimed. Even that fails when a second-stage timer finds the entry
  taken and no other task will serve the path in time (`DebounceTiming.RaceBreaksTheBound`, `DebounceTiming.RaceIsFatal`).
- The debouncer's `flush` copies and then clears; an entry that a timer task puts back in between is lost for good
  (`Debounce.FlushRaceLoses`, `Debounce.LostForGood`, `Debounce.FlushLosesExactly`).
- The coalescer's overflow events do not always propagate: a rename replaces them (`Coalesce.OverflowIsLost`,
  `Coalesce.OverflowSurvivesExactly`).
- Conflict sections with a line starting with the base, separator or end marker, or ending in a carriage
  return, do not come back (`ConflictRoundTrip.SeparatorLineIsLost`, `ConflictRoundTrip.RoundTripExactly`).
- PMV2 length fields truncate (`PathMapFile.LongNameIsLost`, `PathMapFile.RoundTripExactly`).
- Blobs are written under `objects/<xx>/` (crates/core/src/blob.rs:313-319), but the sweep lists and deletes under
  `objects/blobs/<xx>/` (crates/journal/src/retention.rs:547-548, 614-628). The model has the one intended location;
  what it claims about blobs holds once the sweep uses it.

## Model

| member | source | states |
|---|---|---|
| TreeCodec.SerializeGitTree | crates/core/src/tree.rs:182-205 | whatever order the hash map hands out its entries, the bytes are those of the entries in ascending name order; with entries as the constructors make them that is one row of octal mode, name and hash for each, those of smaller names first, comparing byte by byte |
| TreeCodec.ParseGitTree | crates/core/src/tree.rs:264-311 | the offset loop accepts and returns exactly what parsing entry after entry does, and never reads outside the data |
| TreeCodec.CutIsFirst | crates/core/src/tree.rs:264-311 | searching a separator splits the bytes at its first occurrence and loses nothing; it fails only when the separator is absent |
| Numerals.NumeralRoundTrip | crates/core/src/tree.rs:182-311 | parsing undoes printing, in octal for modes and decimal for sizes, for every value the integer type holds |
| Numerals.ParseUnsignedExactly | crates/core/src/tree.rs:210-311 | exactly the digit strings of the base, behind at most one plus sign, whose number the type holds are accepted, as that number |
| TreeCodec.UnframeFrame | crates/core/src/tree.rs:210-261 | the header's size is read back and matches, so framed data is recovered |
| TreeCodec.RoundTripExactly | crates/core/src/tree.rs:182-311 | deserialising a serialised tree gives it back if and only if its names are NUL-free and every entry's kind and mode agree as the constructors make them |
| TreeCodec.ParsedIsPlain | crates/core/src/tree.rs:264-311 | whatever the bytes, a parsed tree has NUL-free names and kinds derived from its modes |
| TreeCodec.EncodingIsInjective | crates/core/src/tree.rs:316-333 | two well-formed trees with the same hashed bytes are the same tree |
| TreeCodec.HashTreeInput | crates/core/src/hash.rs:222-246 | the second serialiser feeds the digest the header and the rows sorted by name |
| TreeCodec.TreeHashInput | crates/core/src/tree.rs:316-333 | hashing a tree feeds the digest the rows of its lossily decoded names, sorted twice, whatever the iteration order |
| TreeCodec.SerializersAgree | crates/core/src/tree.rs:316-333 | for UTF-8 names the bytes hashed are the bytes stored, despite sorting twice and whatever the iteration order |
| ByteOrder.SortedNamesCanonical | crates/core/src/tree.rs:182-205 | sorting any enumeration of a name set gives the one ascending list of it |
| ByteOrder.LexLeExactly | crates/core/src/tree.rs:182-205 | the order of names: a proper prefix first, otherwise the smaller one at the first byte that differs |
| Sorting.SortedUnique | crates/core/src/tree.rs:182-205 | two sorted arrangements of the same elements are equal when the order tells them apart |
| HexNames.ToHex | crates/core/src/hash.rs:26-34 | forty lower-case digits, two nibbles a byte, high first |
| HexNames.FromHex | crates/core/src/hash.rs:37-60 | accepts exactly forty hexadecimal digits of either case, and returns the bytes they spell |
| HexNames.NibbleExactly | crates/core/src/hash.rs:37-60 | the digits accepted are 0 to 9 and a to f in either case, each with its own value |
| HexNames.HexIsOneToOne | crates/core/src/hash.rs:26-60 | two hexadecimal texts spell the same bytes exactly when they agree up to case |
| HexNames.HexRoundTrip | crates/core/src/hash.rs:26-60 | a hash printed, split after two digits as object names are, joined and parsed is the hash |
| ObjectStore.Store.WriteTree | crates/core/src/store.rs:173-217 | an existing file is left alone and not even cached; otherwise file and cache both get the tree under its hash |
| ObjectStore.Store.ReadTree | crates/core/src/store.rs:220-251 | the cached tree, or the stored one if it parses and hashes to its name, which is then cached; otherwise an error and no change |
| ObjectStore.Store.WriteBlob | crates/core/src/blob.rs:132-222 | fails exactly on a wrong hash for a blob not yet stored, and then changes nothing; keeps every cached blob backed by a file and every file under its own hash |
| ObjectStore.PresentReadsExactly | crates/core/src/blob.rs:225-310 | after only new blobs were written, one that counts as present reads back if and only if it did not count as present without being readable before |
| ObjectStore.RunKeepsConsistent | crates/core/src/store.rs:173-251 | over any run of reads and writes every file holds one of the written trees under its own hash, the cache agrees with the files, and no file disappears |
| ObjectStore.ReadBack | crates/core/src/store.rs:173-251 | after any reads and writes around the write of a tree, its hash reads as that tree, whether the cache hits or is dropped |
| ObjectStore.DamageIsNoticed | crates/core/src/store.rs:220-251 | whatever happens to the files between the operations of a run, a tree or blob that is read under a hash has that hash |
| ObjectStore.GitCodecIsFaithful | crates/core/src/store.rs:173-251 | the Git format, hashed by the second serialiser with its lossy names, meets what ReadBack needs for well-formed trees with UTF-8 names whose data do not collide under the digest |
| PathMapFile.PathMap.Update | crates/journal/src/pathmap.rs:39-49 | sets or removes exactly the given path |
| PathMapFile.PathMap.Save | crates/journal/src/pathmap.rs:103-159 | header and length-prefixed entries, those of smaller names first, comparing byte by byte, independent of the map's iteration order |
| PathMapFile.Load | crates/journal/src/pathmap.rs:162-259 | the offset loop accepts and returns exactly what decoding entry after entry does, reading nothing out of range on any input |
| PathMapFile.RoundTripExactly | crates/journal/src/pathmap.rs:103-259 | loading a saved map gives map and root hash back if and only if there are fewer than 2^32 entries and no path exceeds 65535 bytes; any kind and mode may be paired |
| PathMapFile.LongNameIsLost | crates/journal/src/pathmap.rs:103-159 | a map with a name of 65536 bytes that does not come back |
| PathMapFile.TruncationRejected | crates/journal/src/pathmap.rs:180-259 | no strict prefix of a saved file loads |
| PathMapFile.DecodeAllExtends | crates/journal/src/pathmap.rs:180-259 | bytes behind an accepted file never change what was read |
| Reachability.ClosureIsExact | crates/jj/src/git_ops.rs:579-649 | a set that contains the roots, is closed and holds only reached nodes is exactly what the roots reach |
| AheadBehind.WalkHistory | crates/jj/src/git_ops.rs:579-649 | the worklist terminates on every finite graph with exactly the start commit and its ancestors |
| AheadBehind.AncestryIsLineage | crates/jj/src/git_ops.rs:579-649 | an ancestor is what a line of commits leads to, each in the parent list of the one before, first parent or not |
| AheadBehind.CalculateAheadBehind | crates/jj/src/git_ops.rs:579-649 | the counts are the sizes of the two differences of the ancestor sets |
| AheadBehind.NothingAheadIffAncestor | crates/jj/src/git_ops.rs:579-649 | ahead is zero exactly when the local head is an ancestor of the remote one or the same |
| AheadBehind.DivergenceTestsAgree | crates/jj/src/git_ops.rs:494-517 | the fast test by ancestry and the slow test by counts (lines 694-706) agree for every pair of optional heads |
| CivilDate.CivilCountsDays | crates/cli/src/util.rs:384-413 | the closed formula gives the date that counting calendar days forward from 1 January 1970 gives |
| CivilDate.CivilSuccessor | crates/cli/src/util.rs:384-413 | the next day number is the next calendar day, across months, leap days, years, centuries and eras |
| CivilDate.DayNumberOfCivil | crates/cli/src/util.rs:384-413 | counting the date's days year by year and month by month gives the day number back |
| CivilDate.CivilOfDayNumber | crates/cli/src/util.rs:384-413 | every valid date from the epoch on is printed for its own day number |
| CivilDate.DayNumberAscends | crates/cli/src/util.rs:384-413 | valid dates are ordered as their day numbers are |
| CivilDate.TimestampFields | crates/cli/src/util.rs:384-413 | every timestamp gives a valid date and time of day (month lengths and leap rule of RFC 3339, section 5.7 and Appendix C) that add up to its second |
| CivilDate.TimestampsAscend | crates/cli/src/util.rs:384-413 | a later timestamp never prints as an earlier date and time |
| JournalLog.Journal.Open | crates/journal/src/journal.rs:24-44 | fails exactly when some record cannot be read; otherwise the counter is past every number and, with distinct ids, the journal is what the reopening step of runs gives, its index the inverse of the database |
| JournalLog.Journal.Append | crates/journal/src/journal.rs:47-61 | with a fresh id the log grows by the checkpoint at its end and stays valid |
| JournalLog.Journal.Get | crates/journal/src/journal.rs:64-77 | finds a checkpoint of the log by id exactly when there is one |
| JournalLog.Journal.Latest | crates/journal/src/journal.rs:80-92 | the most recent surviving append; its unwrap never fails |
| JournalLog.Journal.LastN | crates/journal/src/journal.rs:95-113 | the last survivors in append order, all of them when there are fewer |
| JournalLog.Journal.Since | crates/journal/src/journal.rs:116-130 | exactly the checkpoints of the log whose ids carry a timestamp from the given one on, each once and in id order |
| Objects.TimestampOfUlid | crates/journal/src/journal.rs:116-130 | the timestamp of an id is what stands above its 80 random bits |
| JournalLog.Journal.Delete | crates/journal/src/journal.rs:138-147 | removes the checkpoint with that id from the log and keeps the rest in order |
| JournalLog.RunsRefine | crates/journal/src/journal.rs:24-147 | over every run of appends with fresh ids, deletes and reopens that rebuild the index from the database, the journal is a plain list: the index is the exact inverse of the database and the counter exceeds every stored number |
| JournalLog.ReopenRefines | crates/journal/src/journal.rs:24-44 | rebuilding the index of a valid journal gives the index it had |
| JournalLog.AppendNeedsFreshId | crates/journal/src/journal.rs:47-61 | an append keeps the journal valid if and only if its id is not indexed yet |
| JournalLog.IndexDetermined | crates/journal/src/journal.rs:24-44 | a database has at most one index that is its inverse |
| Integrity.VerifyIntegrity | crates/journal/src/journal.rs:160-236 | reports exactly the damaged records, the records missing from the index or indexed elsewhere, and the entries that lead nowhere |
| Integrity.HealthyIffInverse | crates/journal/src/journal.rs:339-345 | healthy with as many index entries as records if and only if every record is readable and the index is the exact inverse |
| Integrity.CleanReport | crates/journal/src/journal.rs:339-345 | what a healthy report says about database and index, no more and no less |
| Integrity.FindingsAreTrue | crates/journal/src/journal.rs:160-236 | every finding names the record and the index entry it is about, the right way round |
| Integrity.FindingsHealExactly | crates/journal/src/journal.rs:160-236 | with distinct ids, removing the damaged records and acting on every finding leaves a healthy journal if and only if no index entry without a finding led to a damaged record |
| Integrity.HealthyAloneIsNotEnough | crates/journal/src/journal.rs:339-345 | a healthy report over an index in which two ids share a record, as a database changed behind the index can leave it |
| Integrity.Repair | crates/journal/src/journal.rs:239-302 | nothing happens when healthy or dry; otherwise damaged records go and the index is rebuilt exactly for orphans or missing entries |
| Integrity.RepairKeepsRecords | crates/journal/src/journal.rs:239-302 | no readable record is dropped, changed or made up |
| Integrity.RebuildsExactlyWhen | crates/journal/src/journal.rs:239-302 | the index is rebuilt if and only if a readable record is not indexed or an index entry leads nowhere |
| Integrity.RepairHealsExactlyWhen | crates/journal/src/journal.rs:239-302 | after a rebuild the journal is healthy if and only if the readable records have distinct ids; without one if and only if nothing was mismatched and no entry led to a damaged record |
| Integrity.RebuiltIsValid | crates/journal/src/journal.rs:239-302 | a rebuild over distinct ids restores everything runs keep, with the counter above every number |
| Integrity.RepairLeavesDanglingIndex | crates/journal/src/journal.rs:239-302 | a repair that removes an indexed damaged record and ends unhealthy |
| GarbageCollection.MarkLiveCheckpoints | crates/journal/src/retention.rs:366-395 | the pinned, workspace, most recent and in-window checkpoints of the log |
| GarbageCollection.LiveExactly | crates/journal/src/retention.rs:366-395 | a checkpoint of the log is live if and only if the policy promises to keep it, by its pins, workspaces, position from the end or age |
| GarbageCollection.MarkTree | crates/journal/src/retention.rs:430-467 | terminates on every graph of trees; on success what it adds to the shared visited set is readable, reached from the root and closed but for what was visited before, with exactly the stored blobs of the added trees; it fails only if the root reaches an unreadable tree |
| GarbageCollection.MarkLiveObjects | crates/journal/src/retention.rs:402-424 | succeeds exactly when no live root reaches an unreadable tree, and changes nothing but the cache |
| GarbageCollection.MarkedAllMeans | crates/journal/src/retention.rs:402-467 | the shared visited set ends as exactly what all roots reach |
| GarbageCollection.SweepDeadObjects | crates/journal/src/retention.rs:470-507 | journal, trees and blobs lose exactly what is not live, and each count before is the count after plus the number deleted |
| GarbageCollection.Collect | crates/journal/src/retention.rs:332-363 | succeeds exactly when every tree below a live checkpoint can be read; otherwise deletes nothing; on success a checkpoint of the log survives if and only if it is pinned and pins are retained, in a workspace, followed by fewer than the dense count, or inside the time window |
| GarbageCollection.CollectIsSafe | crates/journal/src/retention.rs:332-507 | every live checkpoint of the journal survives; every tree reached from its root keeps its file and reads as before, from the files alone too; every blob of those trees that had a file still has it with the same content |
| GarbageCollection.CacheBackedExactly | crates/journal/src/retention.rs:470-507 | after the sweep every cached blob still has a file if and only if it had one before and a live tree refers to it |
| GarbageCollection.CollectIsExact | crates/journal/src/retention.rs:366-507 | a checkpoint survives if and only if it was there and live, a stored tree if and only if a live checkpoint reaches it |
| GarbageCollection.SurvivesExactly | crates/journal/src/retention.rs:332-507 | a checkpoint of the log survives a collection if and only if the policy promises to keep it |
| LiveContents.CheckpointsReadAsBefore | crates/journal/src/retention.rs:332-507 | every checkpoint left in the journal has, along every list of names, the same entry and the same content as before, through the cache and, if cached trees have their files, from the files alone |
| LiveContents.NothingUnusedIsLeft | crates/journal/src/retention.rs:402-507 | the tree and blob files left are exactly those there were to which some list of names leads from a checkpoint left in the journal |
| LiveContents.MarksExactlyReadable | crates/journal/src/retention.rs:402-467 | marking succeeds if and only if every tree that some list of names leads to from a live checkpoint can be read |
| GarbageCollection.RecentUnchanged | crates/journal/src/retention.rs:366-395 | the last k checkpoints for k up to the dense count, and for k at least one the latest, are what they were |
| GarbageCollection.SecondCollectSucceeds | crates/journal/src/retention.rs:332-507 | with clock and pins unchanged a second collection marks the same trees and meets no unreadable one |
| GarbageCollection.CollectTwice | crates/journal/src/retention.rs:332-507 | and deletes no checkpoint and no tree |
| TreeDiff.UpdateEntries | crates/core/src/tree.rs:340-355 | applies the changes in order to a copy |
| TreeDiff.LastChangeWins | crates/core/src/tree.rs:340-355 | of several changes to one path the last one counts |
| TreeDiff.Compare | crates/core/src/tree.rs:377-410 | the two passes find exactly the added, removed and modified entries |
| TreeDiff.TouchedExactly | crates/core/src/tree.rs:377-410 | a path is in the diff exactly when its entries differ, in only one of the lists, and the diff is empty exactly for equal trees |
| TreeDiff.DiffRebuilds | crates/core/src/tree.rs:340-410 | applying the diff's changes in any order to the old tree gives the new one |
| TreeDiff.DiffIsInvertible | crates/core/src/tree.rs:377-410 | the entries in the diff lead from the old tree to the new one and back |
| Incremental.NormalizeDirtyPaths | crates/journal/src/incremental.rs:44-63 | exactly the paths that are not ignored and normalise, each once |
| Incremental.IgnoredExactly | crates/core/src/store.rs:467-509 | ignored is exactly a path whose first component is one of the thirteen listed names |
| Incremental.NormalizedExactly | crates/core/src/store.rs:331-366 | accepted are exactly the relative paths without a `..` component; one `./` in front goes and every backslash becomes a slash, nothing else changes |
| Incremental.ReconcileFile | crates/journal/src/incremental.rs:155-200 | sets that one path, only adds blobs, and leaves a blob of the content's hash that reads back if and only if no unreadable one counted as present before |
| Incremental.ReconcileSymlink | crates/journal/src/incremental.rs:203-237 | sets that one path unless the hash is the same, and leaves the blob of a changed target readable under the same condition |
| Incremental.ReconcilePath | crates/journal/src/incremental.rs:66-104 | dispatches on what is at the path; other paths keep their entries, and blobs are only added |
| Incremental.IncrementalUpdate | crates/journal/src/incremental.rs:14-41 | fails exactly on a read error at a normalised path or a path that is not UTF-8; otherwise the base is untouched, the tree is the base reconciled on those paths and stored under its hash, and if the base's blobs could be read, the new tree's can if and only if none of them counted as present without being readable |
| Incremental.PathIsRightIff | crates/journal/src/incremental.rs:66-104 | one path ends as a full scan would record it exactly when none of the code's no-op guards applies |
| Incremental.RefinesFullScanExactly | crates/journal/src/incremental.rs:14-252 | from a base that agrees with the file system off the dirty paths, the result is the full scan if and only if no dirty path meets a guard |
| Incremental.RunRefinesFullScansExactly | crates/journal/src/incremental.rs:14-252 | over any run of updates, each looking at whatever changed since the one before, all their maps are full scans if and only if no update meets a guard |
| Incremental.OrderDoesNotMatter | crates/journal/src/incremental.rs:14-41 | the same dirty paths in another order or repeated give the same tree |
| Incremental.UpdateKeepsConstructed | crates/journal/src/incremental.rs:155-252 | updates keep every entry as the constructors make it, hence storable and publishable |
| SharedStore.SweptBlobIsReused | crates/journal/src/incremental.rs:155-200 | a blob written, swept and needed again is not written again, so that the new entry cannot be read |
| SharedStore.UpdateAfterCollectReadsExactly | crates/journal/src/incremental.rs:66-237 | an update on top of a live checkpoint after a collection leaves only readable blobs if and only if it uses no cached blob that no live tree needed |
| SharedStore.CollectThenUpdate | crates/cli/src/daemon.rs:795-848 | on one store, a collection and then an update: after a failed collection every blob of the new tree reads, after a successful one they all read if and only if the tree uses no cached blob that no live tree needed |
| SharedStore.BackedBlobsRead | crates/journal/src/incremental.rs:14-41 | without a sweep in between, a store whose cache is backed by sound files leaves every blob of the new tree readable |
| SeedTree.SeedSurvivesExactly | crates/journal/src/retention.rs:402-507 | after a collection the seed tree reads from the files, as before, if and only if some live checkpoint reaches it |
| SeedTree.SeedSoundAfterCollect | crates/jj/src/materialize.rs:775-789 | what the publish results ask of the seed survives a collection if and only if there is no seed or a live checkpoint reaches its tree |
| SeedTree.RootIsPublishedExactly | crates/jj/src/materialize.rs:709-789 | after a collection a live, convertible root checkpoint can still be published on the seed commit if and only if some live checkpoint reaches the seed tree |
| SeedTree.RootNeedsSeed | crates/jj/src/materialize.rs:709-789 | without a published parent and accumulated paths, publishing on a seed commit succeeds if and only if a seed tree is recorded and read and the conversion with the diff against it succeeds |
| SeedTree.EmptySeedIsCollected | crates/jj/src/lib.rs:546-571 | the empty seed tree recorded before the first checkpoint is deleted by the first collection, under any policy |
| Incremental.SymlinkSwapIsMissed | crates/journal/src/incremental.rs:203-237 | a file replaced by a link with the same bytes keeps its file entry |
| Incremental.DirectoryIsMissed | crates/journal/src/incremental.rs:66-104 | a file replaced by a directory keeps its entry |
| Incremental.IgnoredPathSlipsThrough | crates/journal/src/incremental.rs:44-63 | any ignored path is reconciled when it is reported behind `./` |
| Materialize.ConvertEntry | crates/jj/src/materialize.rs:185-272 | the existing-object fast path and the write path give the same value; fails exactly on an invalid path, a missing or corrupt blob or a non-UTF-8 target |
| Materialize.ConvertTree | crates/jj/src/materialize.rs:185-272 | every unprotected file and link, and nothing else, or an error exactly when one of them cannot be converted |
| Materialize.ConvertedExactly | crates/jj/src/materialize.rs:185-272 | the full conversion holds a link for each unprotected link, a file for each other unprotected entry but subtrees, executable if its kind says so or an execute bit of its mode is set, and nothing else |
| WorkingCopy.ScanConverts | crates/jj/src/materialize.rs:185-272 | converting a full scan gives, for each file outside the ignored directories, its content's blob, executable if and only if owner, group or others may execute it, for each link its target's blob, and nothing else |
| WorkingCopy.ScanConvertsExactly | crates/jj/src/materialize.rs:185-272 | once the blobs are stored that conversion fails if and only if some path or link target cannot be represented in jj |
| WorkingCopy.CommitHoldsWorkingCopy | crates/jj/src/materialize.rs:396-567 | a commit soundly mapped to a checkpoint of a scan holds exactly that working copy |
| WorkingCopy.ProtectedExactly | crates/jj/src/materialize.rs:203-206 | protected is exactly what lies inside `.tl`, `.git` or `.jj`, all of which a scan ignores |
| Materialize.ConvertIncremental | crates/jj/src/materialize.rs:284-382 | full without a parent or paths; otherwise the touched unprotected paths take their new values and all others the parent's |
| Materialize.IncrementalIsFullExactly | crates/jj/src/materialize.rs:284-382 | the incremental result is the full conversion if and only if the base is right wherever nothing is processed |
| Materialize.CoveringIsAdequate | crates/jj/src/materialize.rs:284-382 | from the full conversion of one tree, any paths covering the change give the full conversion of another |
| Materialize.ComputeTreeDiffPaths | crates/jj/src/materialize.rs:795-824 | lists exactly the differing paths that are UTF-8 |
| Materialize.DiffPathsCoverExactly | crates/jj/src/materialize.rs:795-824 | the list holds only changed paths, and covers the change if and only if all of them are UTF-8 |
| Materialize.SubtreeEntryIsNotRemoved | crates/jj/src/materialize.rs:284-382 | a covering path set for which the incremental conversion succeeds with a result that is not the full one, because of a subtree entry |
| PublishRange.PublishOne | crates/jj/src/materialize.rs:396-567 | one commit on the determined parent, mapped both ways; on an error nothing changes |
| PublishRange.PublishCheckpoints | crates/jj/src/materialize.rs:577-704 | publishes one after the other, or only the last in compact mode, returning one commit for each, and stops at the first failure |
| PublishRange.OneIsRightExactly | crates/jj/src/materialize.rs:396-567 | the new commit builds on the commit just made, on the published parent's, on the seed commit or on the root, in this order, and carries the full conversion if and only if the chosen base and paths are adequate |
| PublishRange.RangeIsRight | crates/jj/src/materialize.rs:603-704 | for a linked chain with empty or covering touched paths every commit is the full conversion of its checkpoint, the first builds on its published parent's commit or else on the seed or root commit, commit i on commit i-1, earlier commits are untouched and the mapping stays sound, also up to a failure |
| PublishRange.RangeIsRightExactly | crates/jj/src/materialize.rs:603-704 | once the first commit is made, all of that holds if and only if the first base was adequate |
| PublishLineage.CommandsMirror | crates/jj/src/materialize.rs:577-769 | over any number of publish commands, failing wherever they may, every mapped commit has one parent: the latest commit its checkpoint's parent had when it was made, or the seed or root commit if it had none; the mapping leads to each checkpoint's latest commit and back |
| PublishLineage.LineMirrorsAncestry | crates/jj/src/materialize.rs:709-769 | so walking back from a mapped commit visits commits of its checkpoint, its parent, and so on, and ends on the seed or root commit at one whose parent was not published then |
| PublishLineage.CommitOfParent | crates/jj/src/materialize.rs:709-769 | a published checkpoint's commit builds on its parent's commit if that is older, and on the seed or root commit if the parent is absent or not published |
| PublishLineage.ChosenListFollows | crates/cli/src/cmd/publish.rs:234-286 | the list chosen for a contiguous request is one that those results are about |
| PublishRange.PublishedParentIsAdequate | crates/jj/src/materialize.rs:709-769 | a soundly mapped parent with covering touched paths is such a first base |
| PublishRange.SeedIsAdequateExactly | crates/jj/src/materialize.rs:709-789 | without a published parent the commit is right if and only if there is no seed commit, nothing is processed, or seed tree and new tree convert alike wherever nothing is processed |
| PublishRange.CoveringFitsSeed | crates/jj/src/materialize.rs:709-789 | paths that cover the change from the seed tree are enough for that |
| PublishChain.CheckpointRange | crates/cli/src/cmd/publish.rs:179-219 | the walk back and the reversal give the range that following parents defines |
| PublishChain.RangeIsTheChain | crates/cli/src/cmd/publish.rs:179-219 | a list is returned if and only if it is the parent chain from start to end |
| PublishChain.FindChain | crates/cli/src/cmd/publish.rs:293-350 | the bounded walk to a published or included ancestor or a root; nothing when it gives up |
| PublishChain.ChainBeforeFacts | crates/cli/src/cmd/publish.rs:293-350 | what it finds is shorter than the bound, linked up to the checkpoint, unpublished, not yet included and anchored |
| PublishChain.ChainBeforeExactly | crates/cli/src/cmd/publish.rs:293-350 | it succeeds if and only if there is such a chain, and returns it |
| PublishChain.SmartChainPublish | crates/cli/src/cmd/publish.rs:234-286 | the missing ancestors sorted by id in front of the request |
| PublishChain.SmartChainIsSound | crates/cli/src/cmd/publish.rs:234-350 | for a contiguous request the list is one duplicate-free parent chain with fewer than a hundred extra ancestors, whose oldest element's parent is absent or published unless the walk gave up or the request starts published |
| PublishChain.AnyRequestIsAnchored | crates/cli/src/cmd/publish.rs:234-350 | for any request, in one piece or not, what is put in front are unpublished checkpoints that were not requested, each once in id order, and the parent of each of them, and of every unpublished requested checkpoint whose own walk does not give up, is absent, published or in the list |
| PublishChain.AccumulateTouchedPaths | crates/cli/src/cmd/publish.rs:359-394 | the union of touched paths back to a published ancestor, a root or a missing parent |
| PublishChain.AccumulatedExactly | crates/cli/src/cmd/publish.rs:359-394 | a path is accumulated if and only if some checkpoint touched it from which parents lead to the start without meeting a published one |
| PublishChain.AccumulatedCover | crates/cli/src/cmd/publish.rs:359-394 | if every checkpoint's paths cover its own change, the union covers the whole change from where the walk stops: the published ancestor, the parent no longer in the journal, or the root |
| PublishChain.PublishCommandIsRightExactly | crates/cli/src/cmd/publish.rs:86-135 | for a contiguous request with empty or covering touched paths, once the first commit is made: every commit of the chosen list is the full conversion of its checkpoint, in one chain with a sound mapping, if and only if the list starts below a published parent, there is no seed commit, or the processed paths fit the seed tree |
| PublishChain.FoundChainFits | crates/cli/src/cmd/publish.rs:86-109 | that condition holds whenever the walk did not give up and the changed paths are UTF-8 |
| PublishChain.GaveUpFitsExactly | crates/cli/src/cmd/publish.rs:92-109 | when the walk gave up it holds if and only if there is no seed commit, nothing was accumulated, or the seed and the tree where the accumulation stopped (published ancestor, missing parent or root) convert alike on every other path |
| PublishChain.RootChainFits | crates/cli/src/cmd/publish.rs:359-394 | a chain accumulated back to a root whose touched paths cover its change from the seed always fits |
| PublishChain.CollectedParentIsPublishedWrong | crates/cli/src/cmd/publish.rs:336-341 | a checkpoint whose parent was collected, with paths covering its own change, that the command publishes with a stale file |
| PublishChain.CompactIsRightExactly | crates/jj/src/materialize.rs:593-601 | in compact mode the one commit is right if and only if the last checkpoint's parent is published, there is no seed commit, or the paths accumulated for the first checkpoint fit the seed for the last one's tree |
| PublishChain.CompactMissesLaterChanges | crates/jj/src/materialize.rs:593-601 | two checkpoints, the first one's parent collected, that compact mode publishes without the second one's change |
| Debounce.RunKeepsCoveredExactly | crates/watcher/src/debounce.rs:85-215 | over every interleaving, each entry has a timer and each unserved push is in the map or in a task's hands in every state, exactly when no flush clears an owed path that a task put back since the copying and that no other task holds |
| Debounce.NoPathIsLost | crates/watcher/src/debounce.rs:85-215 | in such runs an unserved push always has a task that will serve it, and when no task is left nothing is unserved |
| Debounce.ServedMeansDelivered | crates/watcher/src/debounce.rs:85-215 | a push stops being owed only in a step that sends its path or returns it from a flush |
| Debounce.OnlyPushedIsEmitted | crates/watcher/src/debounce.rs:85-142 | nothing is emitted that was not pushed in the run |
| Debounce.TaskStepsAreBounded | crates/watcher/src/debounce.rs:85-142 | k pushes cause at most 5k task steps, whatever else happens |
| Debounce.TasksNeverStuck | crates/watcher/src/debounce.rs:110-141 | a task can make a step exactly when it is not waiting for its timer |
| DebounceQuiet.SendsWhenQuiet | crates/watcher/src/debounce.rs:110-141 | as long as nothing was put back, a first timer that finds its path's entry goes on to send it if and only if the last push before lies the debounce duration back, whatever happens in between |
| DebounceQuiet.WaitsUntilQuiet | crates/watcher/src/debounce.rs:110-141 | otherwise the push is put back unchanged, and the second timer runs out when the path would have been quiet |
| DebounceTiming.ServedWithinTwice | crates/watcher/src/debounce.rs:85-142 | with prompt timers no push waits longer than two debounce durations, as long as every second-stage timer that finds its entry taken, and every clearing that takes a returned entry, leaves another task that will serve the path in time |
| DebounceTiming.RaceIsFatal | crates/watcher/src/debounce.rs:110-141 | that condition is exact: the first step that violates it leaves a path that some prompt course leaves waiting past the bound |
| DebounceTiming.StarvedUntilBound | crates/watcher/src/debounce.rs:85-142 | and that no course without a new push of it or a flush serves before the bound |
| DebounceTiming.RaceBreaksTheBound | crates/watcher/src/debounce.rs:110-141 | a run from the start with prompt timers in which a push waits longer |
| Debounce.FlushLosesExactly | crates/watcher/src/debounce.rs:203-215 | some course of a flush loses a path if and only if, when the flush copies the map, the path is owed and every task that took its entry has found newer events and will put it back |
| Debounce.LostForGood | crates/watcher/src/debounce.rs:85-215 | a path lost by a flush is not delivered by anything that happens later, until it is pushed again |
| Debounce.FlushRaceLoses | crates/watcher/src/debounce.rs:203-215 | a run from the start whose flush loses a path |
| Debounce.Receiver.TryRecvBatch | crates/watcher/src/debounce.rs:147-159 | drains in order up to the batch size and loses nothing |
| Coalesce.Coalescer.Push | crates/watcher/src/coalesce.rs:65-109 | an atomic save becomes a modification of its target at once; other events merge into, start or cancel their own path's entry |
| Coalesce.PushAnswers | crates/watcher/src/coalesce.rs:65-109 | a push answers at once if and only if detection is on and the path is an atomic save, with a modification of its target |
| Coalesce.Coalescer.CollectReady | crates/watcher/src/coalesce.rs:145-163 | emits each entry idle for the window exactly once and removes exactly those |
| Coalesce.EmittedWhenIdle | crates/watcher/src/coalesce.rs:65-163 | over any run, a pending path is emitted by a collection if and only if its last push lies at least the window back |
| Coalesce.EntryHistory | crates/watcher/src/coalesce.rs:65-109 | a pending entry remembers when it began and counts the pushes of its path since |
| Coalesce.Coalescer.Flush | crates/watcher/src/coalesce.rs:169-178 | emits every entry exactly once and leaves none |
| Coalesce.NetEffect | crates/watcher/src/coalesce.rs:114-140 | for any history consistent with the file's existence the pending entry is Create, Modify, Delete or nothing as existence before and after dictates, with the last modification's kind |
| Coalesce.PendingIsNet | crates/watcher/src/coalesce.rs:65-109 | in any run of pushes each path's entry depends on its own events only |
| Coalesce.EmittedAreNets | crates/watcher/src/coalesce.rs:65-178 | over any run of pushes, collections and flushes a path's events split into consecutive segments whose nets are what was emitted and what is pending |
| Coalesce.EmissionKeepsMeaning | crates/watcher/src/coalesce.rs:65-178 | so the emitted events and the pending one are again consistent with the file's existence and end with the same existence |
| Coalesce.OverflowSurvivesExactly | crates/watcher/src/coalesce.rs:132-138 | an overflow is pending if and only if no rename came after some overflow; a rename if and only if it came last |
| Coalesce.NetUpToCancelling | crates/watcher/src/coalesce.rs:114-130 | for any other events, consistent or not, up to the first cancellation, the first and the last two decide what is pending |
| Coalesce.RenameForgets | crates/watcher/src/coalesce.rs:132-135 | what came before a rename plays no part in what is pending after it |
| Coalesce.OverflowIsLost | crates/watcher/src/coalesce.rs:132-138 | an overflow replaced by a rename, after which a creation and a deletion leave nothing at all |
| ConflictMarkers.WriteConflictMarkers | crates/jj/src/conflicts.rs:41-97 | markers, labels and newline-terminated sections in Git's order, the base only if given |
| ConflictMarkers.ParseConflictRegions | crates/jj/src/conflicts.rs:168-232 | the nested line loops find the regions that reading line by line defines; an unfinished one is dropped |
| ConflictMarkers.LinesJoin | crates/jj/src/conflicts.rs:168-173 | the lines of a newline-terminated text followed by another are the lines of both |
| ConflictMarkers.RegionsInOrder | crates/jj/src/conflicts.rs:168-232 | in every file each region spans a start marker and the first end marker after it, and regions are increasing and disjoint |
| ConflictRoundTrip.LinesOfBlock | crates/jj/src/conflicts.rs:41-97 | splitting a written block into lines gives exactly its four markers (three without a base) with the lines of its sections between them |
| ConflictRoundTrip.MarkersOfGit | crates/jj/src/conflicts.rs:41-97 | the markers are Git's, seven characters each, in Git's order |
| ConflictRoundTrip.RoundTripExactly | crates/jj/src/conflicts.rs:41-232 | any number of blocks between other text parse to exactly their regions, with line ranges and sections up to leading blank lines and one trailing newline, if and only if no section has a line starting with the base, separator or end marker or ending in a carriage return |
| ConflictRoundTrip.CleanSectionExactly | crates/jj/src/conflicts.rs:168-232 | the condition in that result, in terms of the section's lines and characters alone |
| ConflictRoundTrip.SeparatorLineIsLost | crates/jj/src/conflicts.rs:168-232 | a block whose section is a separator line and does not come back |

## Left out

- IPC, sockets, command-line output, configuration, the daemon's event loop and its lock files.
- jj-lib, sled, zlib, SHA-1 and DashMap: finite maps, an inverse pair, a digest and single atomic map operations stand for them; errors of the database and the disk are not modelled.
- Clocks, randomness and hash-map iteration orders are parameters or arbitrary choices; result lists whose order comes from a hash map are sets (`Integrity.Report`, accumulated and diff paths) or any order (`Coalesce.EmitsOnce`).
- The stash list, three-way merges and conflict extraction, ignore rules beyond the built-in directories, reference resolution of checkpoint ranges, and rescans by modification time.
- GarbageCollection.Collect: the bytes-freed metric is not modelled, and reading pins and workspaces may not fail.
- LiveContents.NothingUnusedIsLeft: of blob files it speaks about the one intended location; in the source they are written and swept in different places.
- ObjectStore.Store.WriteBlob: the second copy in Git's own object directory is not modelled; a blob in the metadata cache counts as present as in the source, even when its file is gone.
- PathMapFile.PathMap.Update: says nothing about the root hash, which an incremental update does not refresh.
- PathMapFile.Load: the comment above `load` promises two formats (crates/journal/src/pathmap.rs:161), but the code rejects the older one with its own message; the model has one error for all rejections.
- Incremental.NormalizeDirtyPaths: paths are bytes with `/` between components; platform prefixes and case rules are not modelled, bytes that are not UTF-8 are kept where the source replaces them, and the result is a set.
- Incremental.ReconcileFile: the content read is stable; the retry loop around unstable reads is not modelled.
- Incremental.ReconcileSymlink: a link's target is given as the source decodes it before hashing and storing; two targets that decode alike are one.
- Materialize.ConvertIncremental: touched paths are given as the source decodes them.
- Materialize.ConvertTree: objects written to Git while converting are not tracked, since they never change the outcome.
- PublishRange.PublishCheckpoints: when a range fails midway the source drops its transaction, and with it jj's view of the new commits, while their objects and the mappings stay; the model has the objects and the mappings, and no view.
- PublishRange.PublishOne: commit ids are fresh numbers; messages, signatures and the working-copy pointer are not modelled, and mapped ids always decode.
- CivilDate.TimestampFields: the printed text with its zero padding is not modelled, only the fields.
- AheadBehind.WalkHistory: a commit that cannot be loaded has no parents, as in the source; the warning is not modelled.
- Debounce.RunKeepsCoveredExactly: each half of a flush is one step over the map; pushes do not fall between them, because `flush` borrows the debouncer exclusively.
- Debounce.Receiver.TryRecvBatch: the waiting form with a timeout returns the same prefix of the queue and is not modelled.
- Coalesce.NetEffect: renames and overflows are outside it, since they say nothing about existence; `Coalesce.OverflowSurvivesExactly` covers them.
- Coalesce.Coalescer.Push: which names are temporary names of atomic saves is a parameter.
- ConflictMarkers.WriteConflictMarkers: text is characters; the lossy decoding of other bytes and writing the file are not modelled.
