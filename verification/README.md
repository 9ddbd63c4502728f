# LevelDB and nanopb, modelled and proved

This project models two C and C++ libraries that are vendored in the repository: LevelDB, a
log-structured merge tree, and nanopb, a descriptor-driven Protocol Buffers codec. It states what
they promise and proves it for all inputs, all runs, or all reachable states.

The specification of LevelDB is a history: the sequence of all puts and deletions, numbered in the
order in which they were written. `Database` describes memtable, immutable memtable, seven levels of
sorted files, live snapshots and one running compaction as a state machine over that history, and
proves that reads follow it. `DBImpl` is the class whose methods take those steps; the modules
below it model the pieces as they are written: file search and lookup (`Versions`), input selection
(`Picking`), edits (`Edits`, `EditCodec`), the manifest and its recovery (`Manifest`, `VersionSet`),
the compaction loop (`Compactions`), and when it changes no view (`Preservation`, `Installing`).

Around that core stand the parts on which it rests:

- iterators: `DBIter`, `Merging`, `Iterators`, `TwoLevel`;
- files: `Coding`, `Blocks`, `BlockBuilder`, `BlockIter`, `Separators`, `Tables`, `Bloom`,
  `FilterBlock`, `Lists`;
- durability: `WriteQueue`, `WriteBatches`, `BatchSoundness`, `LogFormat`, `LogReader`, `LogRoundTrip`,
  `LogSoundness`, `Recovery`, `EditSoundness`;
- memory: `SkipList`, `MemTables`, `Cache`, `Rings`, `Snapshots`;
- nanopb: `Protobuf`, `ProtobufRoundTrip`, `ProtobufSoundness`, `ProtobufStreams`, `ProtobufIter`;
- `KnownBytes`: the formats on small examples.

Code that changes things step by step is modelled by classes and loops that are proved against
functions; the promises are then proved of those functions. Several large predicates are stated
behind a one-point quantifier (`forall n :: n == |s| ==> ...`), which keeps the solver from
unfolding them where only the name is needed.

## Where the code does not keep its promise

- A deletion can be lost. `SetupOtherInputs` adds boundary files to the inputs of the compacted
  level (version_set.cc:1407) but not to those of the next level. If the next level has two
  neighbouring files that share a user key and only the first is taken, a dropped tombstone uncovers
  the older entry in the second. `LostDelete.DeletedKeyReturns` is a run in which this happens.
  `Preservation.CompactionPreservesReadsFromIff` says exactly which compactions change a view, and
  `Database.ReadsFollowHistoryIff` exactly which runs contain a wrong read.
- `VersionEdit::Clear` leaves the compaction pointers (version_edit.cc:26-39), so decoding into an
  object that was used before is not decoding into a fresh one: `EditCodec.EditRestoredIff`.
- A writer without a batch waits for the memtable to be switched, so that earlier writes leave it
  (db_impl.cc:624-626). If it joins another writer's group (db_impl.cc:1287-1303) it may be told that
  it succeeded although they have not left: the group's leader switches only if it needs room, and
  always before its own group is applied. `WriteQueue.JoinsWithoutSwitch` and
  `WriteQueue.JoinsBehindSwitch` are such runs; `WriteQueue.BatchlessWaitsIff` says exactly when
  the earlier updates are out: if it leads its group, or if there was nothing ahead of it.
- The compaction loop marks "no entry of this key yet" by the largest sequence number
  (db_impl.cc:904), so a smallest snapshot that large would make it drop everything:
  `Compactions.Compaction.Decide` says exactly when the marker misleads it. The state machine keeps
  its sequence numbers below it.
- The 32-bit varint decoder of nanopb is meant to refuse numbers that do not fit, sign extensions of
  negative ones apart (pb_decode.c:215-225). It does not look at bits 32 to 34 of longer numbers:
  `ProtobufSoundness.NotASignExtension` is one that it takes, and
  `ProtobufSoundness.Varint32Exact` says exactly which it takes.

## Model

| member | source | states |
|---|---|---|
| Database.ReadsFollowHistoryIff | LoginPage_Udemy/Pods/leveldb-library/db/db_impl.cc:1100-1145 | over every run at all, the reads in every state follow the history if and only if no install in the run lets a key return at the oldest live snapshot of that moment |
| Database.ReadsFollowHistory | LoginPage_Udemy/Pods/leveldb-library/db/db_impl.cc:1100-1145 | over every safe run of writes, memtable switches, flushes, moves, compactions and snapshot steps, a read at a live snapshot or at the latest sequence number returns the newest put of the history at or below it, or nothing if there is none or it was deleted |
| Database.ClosedRunsAreSafe | LoginPage_Udemy/Pods/leveldb-library/db/version_set.cc:1403-1412 | a run in which every compaction takes all files of the output level that share a user key with a taken one is safe, so its reads follow the history |
| Database.RunInv | LoginPage_Udemy/Pods/leveldb-library/db/db_impl.cc:688-767 | every state of a safe run keeps the global invariant: level order, newest-first across memtables and levels, and every visible view equal to the history's |
| Database.StepPreserves | LoginPage_Udemy/Pods/leveldb-library/db/db_impl.cc:688-767 | each single step keeps that invariant, a compaction installed under the stated condition included |
| Database.GetAnswersHistory | LoginPage_Udemy/Pods/leveldb-library/db/db_impl.cc:1100-1145 | stopping at the first hit in memtable, immutable memtable and version gives the history's answer |
| Database.WritePreserves | LoginPage_Udemy/Pods/leveldb-library/db/db_impl.cc:1185-1256 | a write extends history and memtable alike |
| Database.FlushPreserves | LoginPage_Udemy/Pods/leveldb-library/db/db_impl.cc:535-566 | a flush to the picked level loses and reorders nothing that a reader can see |
| Database.InstallPreserves | LoginPage_Udemy/Pods/leveldb-library/db/db_impl.cc:860-876 | installing a compaction keeps every view at or above the oldest live snapshot, writes and snapshots taken meanwhile included |
| Database.InstallIsFaithfulIff | LoginPage_Udemy/Pods/leveldb-library/db/db_impl.cc:860-876 | a compaction installed after any writes, switches and snapshot steps keeps the invariant if and only if no key returns at the oldest live snapshot of that moment |
| Preservation.CompactionPreservesReadsFromIff | LoginPage_Udemy/Pods/leveldb-library/db/db_impl.cc:929-974 | for readers from any number on that is not below the compaction's floor, all views are kept if and only if no key returns for the first of them |
| Preservation.KeyReturns | LoginPage_Udemy/Pods/leveldb-library/db/version_set.cc:1403-1412 | a key that returns reads as absent before the install and as present after it, at the very number where it returns |
| Preservation.CompactionPreservesReadsIff | LoginPage_Udemy/Pods/leveldb-library/db/db_impl.cc:929-974 | both drop rules together keep every view at every sequence number from the smallest snapshot on if and only if no key has its newest visible input entry a dropped tombstone and an older entry left in an unselected file of the output level |
| Preservation.KeyUnaffected | LoginPage_Udemy/Pods/leveldb-library/db/db_impl.cc:929-974 | for a key without such a leftover the views before and after are equal |
| Preservation.KeyResurrected | LoginPage_Udemy/Pods/leveldb-library/db/version_set.cc:1403-1412 | for a key with such a leftover a deleted key is visible again after the compaction |
| Preservation.DropPattern | LoginPage_Udemy/Pods/leveldb-library/db/db_impl.cc:938-963 | of one user key the loop keeps all entries above the newest one the smallest snapshot sees, drops all below it, and drops that one itself only as a base-level tombstone |
| LostDelete.DeletedKeyReturns | LoginPage_Udemy/Pods/leveldb-library/db/version_set.cc:1403-1412 | a concrete run of fourteen states after which a deleted key is read again, because boundary files are added to the level inputs but not to the next level's |
| Installing.FlushKeepsLevelInv | LoginPage_Udemy/Pods/leveldb-library/db/version_set.cc:491-516 | a flush to the picked level keeps all levels sorted, disjoint and newer above older |
| Installing.MoveKeepsLevelInv | LoginPage_Udemy/Pods/leveldb-library/db/version_set.cc:1515-1523 | moving the only input file down keeps the level invariant and every entry |
| Installing.InstallKeepsLevelInv | LoginPage_Udemy/Pods/leveldb-library/db/version_set.cc:1525-1531 | replacing the inputs by the outputs keeps the level invariant |
| Installing.InstalledEntries | LoginPage_Udemy/Pods/leveldb-library/db/db_impl.cc:860-876 | after the install exactly the surviving entries are stored |
| Installing.PickedIsCompacting | LoginPage_Udemy/Pods/leveldb-library/db/version_set.cc:1403-1447 | the inputs that are picked meet the premises of the compaction theorem |
| Installing.ClosedParentsNeverResurrect | LoginPage_Udemy/Pods/leveldb-library/db/version_set.cc:1403-1412 | if no file of the output level outside the inputs holds a user key of a file inside, nothing comes back |
| DBImplementation.DBImpl.Get | LoginPage_Udemy/Pods/leveldb-library/db/db_impl.cc:1100-1145 | returns the history's answer at the snapshot or at the latest sequence number |
| DBImplementation.DBImpl.Write | LoginPage_Udemy/Pods/leveldb-library/db/db_impl.cc:1185-1256 | is a write step: the updates get the next sequence numbers in order |
| DBImplementation.DBImpl.SwitchMemTable | LoginPage_Udemy/Pods/leveldb-library/db/db_impl.cc:1345-1367 | is a switch step |
| DBImplementation.DBImpl.CompactMemTable | LoginPage_Udemy/Pods/leveldb-library/db/db_impl.cc:535-566 | is a flush step, and the new file lands in the level that the picking rules say |
| DBImplementation.DBImpl.BackgroundCompaction | LoginPage_Udemy/Pods/leveldb-library/db/db_impl.cc:688-767 | flushes, moves one file, or leaves a compaction to be installed, and that compaction is the one requested: on the request's level, from its file or from its range, moved if and only if it is automatic, one file wide, without a next level's part, and meets at most ten files' worth two levels down; a manual request that does nothing has no overlapping file |
| DBImplementation.DBImpl.MoveFile | LoginPage_Udemy/Pods/leveldb-library/db/db_impl.cc:716-731 | exactly the compaction's file goes one level down |
| DBImplementation.DBImpl.StartCompaction | LoginPage_Udemy/Pods/leveldb-library/db/db_impl.cc:878-1000 | does the compaction work against the oldest snapshot of that moment |
| DBImplementation.DBImpl.InstallCompactionResults | LoginPage_Udemy/Pods/leveldb-library/db/db_impl.cc:860-876 | is an install step, after which the invariant holds if and only if the install was safe; the level invariant holds in any case |
| DBImplementation.DBImpl.GetSnapshot | LoginPage_Udemy/Pods/leveldb-library/db/db_impl.cc:1166-1169 | the latest sequence number becomes a live snapshot |
| DBImplementation.DBImpl.ReleaseSnapshot | LoginPage_Udemy/Pods/leveldb-library/db/db_impl.cc:1171-1174 | one snapshot is no longer live |
| Edits.NewVersion | LoginPage_Udemy/Pods/leveldb-library/db/version_set.cc:801-884 | the new version is the edit applied to the current one, level by level |
| Versions.Get | LoginPage_Udemy/Pods/leveldb-library/db/version_set.cc:326-421 | newest-first level 0, then one searched file a level, stopping at the first hit, gives the answer of a flat search over all entries of all files |
| Versions.GetLevelZero | LoginPage_Udemy/Pods/leveldb-library/db/version_set.cc:349-363 | a level-0 hit answers for the whole version; a miss hides nothing in level 0 |
| Versions.GetSortedLevel | LoginPage_Udemy/Pods/leveldb-library/db/version_set.cc:367-383 | one binary-searched file answers for its whole level |
| Versions.FindFile | LoginPage_Udemy/Pods/leveldb-library/db/version_set.cc:88-106 | the first file whose largest key is not before the key |
| Versions.SomeFileOverlapsRange | LoginPage_Udemy/Pods/leveldb-library/db/version_set.cc:122-161 | true exactly if some file overlaps the user-key range, unbounded ends included |
| Versions.FilesCovering | LoginPage_Udemy/Pods/leveldb-library/db/version_set.cc:350-361 | exactly the level-0 files that cover the key, newest first |
| Keys.FirstHitAnswers | LoginPage_Udemy/Pods/leveldb-library/db/db_impl.cc:1125-1134 | if one source is newer than the other for every user key, the first hit is the answer for both together |
| Keys.ProbeAnswers | LoginPage_Udemy/Pods/leveldb-library/db/memtable.cc:100-133 | seeking one sorted run to the lookup key answers for that run |
| Keys.AnswerIsView | LoginPage_Udemy/Pods/leveldb-library/db/version_set.cc:263-276 | such an answer is the view at that sequence number |
| Picking.GetOverlappingInputs | LoginPage_Udemy/Pods/leveldb-library/db/version_set.cc:519-559 | terminates with the files overlapping the least range that contains the request and, at level 0, is closed under overlap |
| Picking.PickLevelForMemTableOutput | LoginPage_Udemy/Pods/leveldb-library/db/version_set.cc:491-516 | no level from 0 down to the picked one overlaps the new file, and it is the deepest of the first three that can be reached without meeting more than ten files' worth below |
| Picking.AddBoundaryInputs | LoginPage_Udemy/Pods/leveldb-library/db/version_set.cc:1378-1401 | extends the inputs so that no file of the level starts with the user key of the final largest key, and adds nothing when that holds already |
| Picking.BoundaryExtends | LoginPage_Udemy/Pods/leveldb-library/db/version_set.cc:1389-1401 | a boundary file is new to the inputs and moves the largest key up, so the loop terminates |
| Picking.FindSmallestBoundaryFile | LoginPage_Udemy/Pods/leveldb-library/db/version_set.cc:1344-1362 | the boundary file with the smallest start, if there is one |
| Picking.FindLargestKey | LoginPage_Udemy/Pods/leveldb-library/db/version_set.cc:1326-1340 | the largest key of the files, none for no files |
| Picking.GetRange | LoginPage_Udemy/Pods/leveldb-library/db/version_set.cc:1205-1222 | the smallest and the largest key of the inputs |
| Picking.LeftOutIsNewer | LoginPage_Udemy/Pods/leveldb-library/db/version_set.cc:1364-1401 | a file left out beside the inputs holds only newer entries of the user keys it shares with them |
| Picking.ExpandInputs | LoginPage_Udemy/Pods/leveldb-library/db/version_set.cc:1403-1412 | the level inputs leave no older entry of a user key behind in their level |
| Picking.SetupOtherInputs | LoginPage_Udemy/Pods/leveldb-library/db/version_set.cc:1403-1462 | the seed with exactly the boundary files it calls for, and the next level's files in its range; more files of the level if and only if there are some, the next level's part stays the same, and all of it stays below 25 files' worth; the grandparents are those in the range of all inputs; and these inputs are good: convex, boundary-closed in their level, and complete in the next |
| Picking.PickCompaction | LoginPage_Udemy/Pods/leveldb-library/db/version_set.cc:1270-1322 | the good inputs that start from the chosen file, at level 0 with all that it touches |
| Picking.CompactRange | LoginPage_Udemy/Pods/leveldb-library/db/version_set.cc:1464-1495 | the good inputs that start from the range: at level 0 from all files it touches, below from the first and as many more as have not reached the limit; nothing only if no file overlaps |
| Picking.LimitedSeed | LoginPage_Udemy/Pods/leveldb-library/db/version_set.cc:1477-1488 | the leading files up to the one that reaches the limit are exactly those with less than the limit before them |
| Picking.CountDecides | LoginPage_Udemy/Pods/leveldb-library/db/version_set.cc:1429-1433 | as many files of the next level as before means the same files |
| Edits.Builder.Apply | LoginPage_Udemy/Pods/leveldb-library/db/version_set.cc:650-692 | deletions and additions accumulate per level, a file added again no longer counting as deleted |
| Edits.Builder.SaveTo | LoginPage_Udemy/Pods/leveldb-library/db/version_set.cc:694-739 | every level lists, in order, the base and added files whose number is not deleted |
| Edits.SaveLevel | LoginPage_Udemy/Pods/leveldb-library/db/version_set.cc:694-754 | the merge of the base files with the added ones keeps the order and skips deleted numbers |
| Edits.ReplayIsStepwise | LoginPage_Udemy/Pods/leveldb-library/db/version_set.cc:933-968 | n edits through one builder give the same level as applying them one version at a time, if no file number is used twice in a level |
| EditCodec.EditRoundTrip | LoginPage_Udemy/Pods/leveldb-library/db/version_edit.cc:41-205 | decoding an encoded edit restores it, behind the compaction pointers the object had |
| EditCodec.EditRestoredIff | LoginPage_Udemy/Pods/leveldb-library/db/version_edit.cc:26-39 | the object equals the encoded edit if and only if it had no compaction pointers before, as Clear does not clear them |
| EditCodec.VersionEdit.EncodeTo | LoginPage_Udemy/Pods/leveldb-library/db/version_edit.cc:41-85 | appends the fields in order, deleted files ascending |
| EditCodec.VersionEdit.DecodeFrom | LoginPage_Udemy/Pods/leveldb-library/db/version_edit.cc:107-205 | the fields up to the end of the input, or failure at the first malformed one |
| EditSoundness.DecodedIff | LoginPage_Udemy/Pods/leveldb-library/db/version_edit.cc:107-205 | bytes are accepted, with what result there may be, if and only if they are fields of the eight kinds laid end to end, each spelled with varints and slices, on levels below seven, and that is their effect |
| VersionSets.CrashAndRecover | LoginPage_Udemy/Pods/leveldb-library/db/version_set.cc:886-1011 | from a manifest of which any first part has reached the disk, a fresh object recovers file by file the version, the compaction pointers and the numbers that stood after the last complete edit, all of it if the manifest is complete; it fails exactly if no edit after the snapshot is complete |
| VersionSets.ManifestReadsBack | LoginPage_Udemy/Pods/leveldb-library/db/version_set.cc:933-947 | a manifest cut off after any number of bytes decodes, each record into a fresh edit, to exactly the edits of its complete records |
| VersionSets.VersionSet.LogAndApply | LoginPage_Udemy/Pods/leveldb-library/db/version_set.cc:801-884 | the edit gets the numbers it lacks, the new version and pointers are those of the edit applied level by level, and the manifest then holds edits that lead from nothing to them, a new one beginning with a snapshot that has the edit's pointers already |
| VersionSets.VersionSet.WriteSnapshot | LoginPage_Udemy/Pods/leveldb-library/db/version_set.cc:1088-1116 | a manifest of one edit that leads from an empty version to the current files and pointers |
| VersionSets.SnapshotStep | LoginPage_Udemy/Pods/leveldb-library/db/version_set.cc:1088-1116 | installing the snapshot edit in an empty version gives the layout it was taken of, on every level |
| VersionSets.PointersTwice | LoginPage_Udemy/Pods/leveldb-library/db/version_set.cc:818-837 | the pointers of the first edit stand in the snapshot before it as well; replaying them twice is replaying them once |
| VersionSets.VersionSet.Recover | LoginPage_Udemy/Pods/leveldb-library/db/version_set.cc:886-1011 | on any file whose readable edits never give a level the same file number twice: the status is that of the first bad record or missing number, and on success the layout is the stepwise one of the edits read and the numbers are the last ones given |
| Manifest.FineIff | LoginPage_Udemy/Pods/leveldb-library/db/version_set.cc:933-971 | any manifest is read successfully if and only if no corruption is reported and every record decodes to its end and names no other comparator; the edits are then those of all records |
| Manifest.ReplayedLevel | LoginPage_Udemy/Pods/leveldb-library/db/version_set.cc:933-968 | one builder that has taken all decoded edits saves each level as installing them one version at a time left it |
| Compactions.InputMerges | LoginPage_Udemy/Pods/leveldb-library/db/version_set.cc:1237-1268 | the input iterator yields exactly the entries of the input files, sorted |
| Compactions.Compaction.IsBaseLevelForKey | LoginPage_Udemy/Pods/leveldb-library/db/version_set.cc:1533-1552 | the cached level pointers give the same result as a fresh search, for keys that never decrease |
| Compactions.Compaction.Decide | LoginPage_Udemy/Pods/leveldb-library/db/db_impl.cc:929-974 | the loop's variables decide exactly by the two drop rules; the marker for a new key makes it drop a key's first entry too if and only if the smallest snapshot is not below the largest sequence number |
| Compactions.Compaction.DoCompactionWork | LoginPage_Udemy/Pods/leveldb-library/db/db_impl.cc:878-1000 | the outputs hold, in order, exactly the survivors, in files with fresh numbers, or nothing at all for a smallest snapshot as large as the marker |
| Compactions.SurvivorsMembers | LoginPage_Udemy/Pods/leveldb-library/db/db_impl.cc:929-974 | the survivors are the entries that no rule drops, still sorted |
| Compactions.AddToOutput | LoginPage_Udemy/Pods/leveldb-library/db/db_impl.cc:974-996 | an entry goes to the end of the outputs, wherever files are cut |
| DBIterator.DBIter.Next | LoginPage_Udemy/Pods/leveldb-library/db/db_iter.cc:141-166 | moves to the least live key above, also right after moving backwards |
| DBIterator.DBIter.Prev | LoginPage_Udemy/Pods/leveldb-library/db/db_iter.cc:200-225 | moves to the greatest live key below, also right after moving forwards |
| DBIterator.DBIter.Seek | LoginPage_Udemy/Pods/leveldb-library/db/db_iter.cc:269-281 | lands on the least live key at or above the target |
| DBIterator.DBIter.SeekToFirst | LoginPage_Udemy/Pods/leveldb-library/db/db_iter.cc:283-292 | lands on the least live key |
| DBIterator.DBIter.SeekToLast | LoginPage_Udemy/Pods/leveldb-library/db/db_iter.cc:294-299 | lands on the greatest live key |
| DBIterator.DBIter.Value | LoginPage_Udemy/Pods/leveldb-library/db/db_iter.cc:68-71 | the value a reader at the snapshot sees for the current key |
| DBIterator.DBIter.FindNextUserEntry | LoginPage_Udemy/Pods/leveldb-library/db/db_iter.cc:168-198 | the forward scan stops at the least live key of its range or at the end |
| DBIterator.DBIter.FindPrevUserEntry | LoginPage_Udemy/Pods/leveldb-library/db/db_iter.cc:227-267 | the backward scan ends one entry before the greatest live key of its range |
| DBIterator.ForwardWalkIsLiveMap | LoginPage_Udemy/Pods/leveldb-library/db/db_iter.cc:141-198 | a walk from SeekToFirst by Next meets each live key exactly once, in order, and no other |
| DBIterator.BackwardWalkIsReverse | LoginPage_Udemy/Pods/leveldb-library/db/db_iter.cc:200-299 | a walk from SeekToLast by Prev is a forward walk read backwards, and conversely |
| DBIterator.BackwardWalkIsLiveMap | LoginPage_Udemy/Pods/leveldb-library/db/db_iter.cc:200-267 | such a walk meets each live key exactly once, in decreasing order, and no other |
| DBIterator.NextAndPrevAreInverse | LoginPage_Udemy/Pods/leveldb-library/db/db_iter.cc:141-225 | Next and Prev undo one another |
| Merging.MergingIterator.Next | LoginPage_Udemy/Pods/leveldb-library/table/merger.cc:55-79 | moves to the next index of the sorted merge of all children, direction switch included |
| Merging.MergingIterator.Prev | LoginPage_Udemy/Pods/leveldb-library/table/merger.cc:81-108 | moves to the previous index of the sorted merge, direction switch included |
| Merging.MergingIterator.Seek | LoginPage_Udemy/Pods/leveldb-library/table/merger.cc:47-53 | the first index of the merge at or after the target |
| Merging.MergingIterator.SeekToFirst | LoginPage_Udemy/Pods/leveldb-library/table/merger.cc:31-37 | the first index of the merge |
| Merging.MergingIterator.SeekToLast | LoginPage_Udemy/Pods/leveldb-library/table/merger.cc:39-45 | the last index of the merge |
| Merging.MergingIterator.FindSmallest | LoginPage_Udemy/Pods/leveldb-library/table/merger.cc:148-161 | the child with the smallest current key |
| Merging.MergingIterator.FindLargest | LoginPage_Udemy/Pods/leveldb-library/table/merger.cc:163-176 | the child with the largest current key |
| Iterators.NewIterator | LoginPage_Udemy/Pods/leveldb-library/db/db_impl.cc:1147-1157 | an iterator whose views are the history's at the snapshot |
| Iterators.IteratorSeesHistory | LoginPage_Udemy/Pods/leveldb-library/db/db_impl.cc:1062-1087 | the merge over memtables, level-0 files and levels shows exactly the history |
| Iterators.SourcesMergeable | LoginPage_Udemy/Pods/leveldb-library/db/version_set.cc:230-248 | no two children of the internal iterator share an internal key |
| Iterators.WalkFollowsHistory | LoginPage_Udemy/Pods/leveldb-library/db/db_iter.cc:141-198 | walking such an iterator meets every key the history shows, in order |
| TwoLevel.TwoLevelIterator.Seek | LoginPage_Udemy/Pods/leveldb-library/table/two_level_iterator.cc:82-87 | the first row of all blocks that is not before the target, although the index holds separators and blocks may be empty |
| TwoLevel.TwoLevelIterator.ShowsRow | LoginPage_Udemy/Pods/leveldb-library/table/two_level_iterator.cc:31-40 | at a rank the iterator shows the row of all blocks with that rank, and it is valid exactly before the end |
| TwoLevel.CutFound | LoginPage_Udemy/Pods/leveldb-library/table/two_level_iterator.cc:82-87 | the place found by searching first the index and then one block divides all rows into those before the target and the others |
| TwoLevel.TwoLevelIterator.Next | LoginPage_Udemy/Pods/leveldb-library/table/two_level_iterator.cc:103-107 | one row on, over empty blocks |
| TwoLevel.TwoLevelIterator.Prev | LoginPage_Udemy/Pods/leveldb-library/table/two_level_iterator.cc:109-113 | one row back, over empty blocks |
| TwoLevel.TwoLevelIterator.SeekToFirst | LoginPage_Udemy/Pods/leveldb-library/table/two_level_iterator.cc:89-94 | the first row |
| TwoLevel.TwoLevelIterator.SeekToLast | LoginPage_Udemy/Pods/leveldb-library/table/two_level_iterator.cc:96-101 | the last row |
| TwoLevel.TwoLevelIterator.SkipEmptyDataBlocksForward | LoginPage_Udemy/Pods/leveldb-library/table/two_level_iterator.cc:115-126 | ends at the row with the given rank, whichever block holds it |
| TwoLevel.TwoLevelIterator.SkipEmptyDataBlocksBackward | LoginPage_Udemy/Pods/leveldb-library/table/two_level_iterator.cc:128-139 | ends at the row before the given rank |
| Snapshots.SnapshotList.Oldest | LoginPage_Udemy/Pods/leveldb-library/db/snapshot.h:47-50 | the snapshot with the smallest sequence number of all live ones |
| Snapshots.SnapshotList.Newest | LoginPage_Udemy/Pods/leveldb-library/db/snapshot.h:51-54 | the snapshot with the largest sequence number |
| Snapshots.SnapshotList.New | LoginPage_Udemy/Pods/leveldb-library/db/snapshot.h:57-71 | appends to the ring of live snapshots |
| Snapshots.SnapshotList.Delete | LoginPage_Udemy/Pods/leveldb-library/db/snapshot.h:79-86 | takes one snapshot out of the ring, the order of the others unchanged |
| WriteQueue.Queue.BuildBatchGroup | LoginPage_Udemy/Pods/leveldb-library/db/db_impl.cc:1260-1306 | the group is the longest allowed prefix of the queue, its batch the concatenation of theirs in order; behind a leader of at most 128 KB the followers have at most that much, and a group behind a larger one at most 1 MB or no follower's bytes |
| WriteQueue.GroupIsUnique | LoginPage_Udemy/Pods/leveldb-library/db/db_impl.cc:1276-1305 | that prefix is determined by the queue |
| WriteQueue.GroupIsBounded | LoginPage_Udemy/Pods/leveldb-library/db/db_impl.cc:1267-1275 | behind a leader of at most 128 KB the followers have at most 128 KB together; behind a larger one the group has at most 1 MB, or no follower's bytes |
| WriteQueue.LeftOutIff | LoginPage_Udemy/Pods/leveldb-library/db/db_impl.cc:1281-1295 | the group ends before a writer if and only if that writer asks for a sync the leader does not, or would take it past those limits |
| WriteQueue.Queue.Enqueue | LoginPage_Udemy/Pods/leveldb-library/db/db_impl.cc:1185-1196 | queues at the end, also while a group is being written |
| WriteQueue.Queue.Begin | LoginPage_Udemy/Pods/leveldb-library/db/db_impl.cc:1200-1207 | the front makes room and forms its group, or leaves alone with its own result; a front without a batch finds room only with a switch |
| WriteQueue.Queue.Commit | LoginPage_Udemy/Pods/leveldb-library/db/db_impl.cc:1208-1249 | logs and applies the whole group under consecutive numbers, or neither applies nor hides a failure, and tells every member the same result |
| WriteQueue.Queue.Pop | LoginPage_Udemy/Pods/leveldb-library/db/db_impl.cc:1239-1248 | exactly the members of the group leave, in order |
| WriteQueue.BatchlessWaitsIff | LoginPage_Udemy/Pods/leveldb-library/db/db_impl.cc:624-626 | a writer without a batch that is told of success finds no update of an earlier writer in the memtable when its group has finished if it led the group; if it joined, if and only if the batches ahead of it in the group were empty and the memtable was switched for the group or empty before it; unless the leader's batch is empty that is exactly if it led the group itself |
| WriteQueue.EarlierOutIff | LoginPage_Udemy/Pods/leveldb-library/db/db_impl.cc:1200-1232 | the same of any member of any group of a run |
| WriteQueue.MemIsLast | LoginPage_Udemy/Pods/leveldb-library/db/db_impl.cc:1225-1236 | between two turns of the queue the memtable is the one that the last finished group left |
| WriteQueue.JoinsBehindSwitch | LoginPage_Udemy/Pods/leveldb-library/db/db_impl.cc:1200-1232 | a concrete run in which such a writer joins a leader that switched and is told of success while the leader's earlier update stands in the new memtable |
| WriteQueue.JoinsWithoutSwitch | LoginPage_Udemy/Pods/leveldb-library/db/db_impl.cc:1287-1303 | a concrete run in which such a writer joins another's group and is told of success while everything stays in the same memtable |
| WriteQueue.RangesAreDisjoint | LoginPage_Udemy/Pods/leveldb-library/db/db_impl.cc:1202-1207 | over every run the sequence ranges of different groups are disjoint and follow the order of the groups |
| WriteQueue.ResultOfArrival | LoginPage_Udemy/Pods/leveldb-library/db/db_impl.cc:1239-1248 | each writer belongs to exactly one group, in order of arrival, and gets that group's result once |
| WriteQueue.OwnUpdates | LoginPage_Udemy/Pods/leveldb-library/db/write_batch.cc:144-148 | a writer's updates stand together, in order, in its group's batch |
| WriteQueue.SyncedWriters | LoginPage_Udemy/Pods/leveldb-library/db/db_impl.cc:1282-1285 | a successful sync writer's group was led by a sync writer and, unless it had no batch, was logged whole |
| WriteQueue.AppliedIncreases | LoginPage_Udemy/Pods/leveldb-library/db/db_impl.cc:1202-1236 | the memtable's sequence numbers increase in the order of application |
| WriteBatches.BatchRoundTrip | LoginPage_Udemy/Pods/leveldb-library/db/write_batch.cc:42-80 | a batch read back yields the same updates in order, with its sequence number and exact count |
| WriteBatches.WriteBatch.Put | LoginPage_Udemy/Pods/leveldb-library/db/write_batch.cc:98-103 | the batch then holds one more put at its end |
| WriteBatches.WriteBatch.Delete | LoginPage_Udemy/Pods/leveldb-library/db/write_batch.cc:105-109 | the batch then holds one more deletion at its end |
| WriteBatches.WriteBatch.Append | LoginPage_Udemy/Pods/leveldb-library/db/write_batch.cc:144-148 | the batch then holds the updates of both, the count summed |
| WriteBatches.WriteBatch.SetSequence | LoginPage_Udemy/Pods/leveldb-library/db/write_batch.cc:94-96 | only the sequence number changes |
| WriteBatches.WriteBatch.InsertInto | LoginPage_Udemy/Pods/leveldb-library/db/write_batch.cc:132-137 | adds the well-formed updates under consecutive sequence numbers and reports malformed contents and wrong counts |
| WriteBatches.Iterate | LoginPage_Udemy/Pods/leveldb-library/db/write_batch.cc:42-80 | the updates up to the first malformed one, numbered from the base |
| BatchSoundness.AcceptedIff | LoginPage_Udemy/Pods/leveldb-library/db/write_batch.cc:42-80 | any contents are accepted with certain updates if and only if behind the header these are spelled out one after the other up to the end, and the header counts them |
| BatchSoundness.HandledIsSpelled | LoginPage_Udemy/Pods/leveldb-library/db/write_batch.cc:50-74 | in any contents what is handled stands at the front, and what follows is nothing or cannot begin with another update |
| BatchSoundness.RejectedIff | LoginPage_Udemy/Pods/leveldb-library/db/write_batch.cc:42-80 | too small means fewer than twelve bytes, a wrong count means well-formed updates that the header does not count |
| LogRoundTrip.TruncatedLogReadsBack | LoginPage_Udemy/Pods/leveldb-library/db/log_reader.cc:56-174 | any log, cut off after any number of bytes, is read back as exactly the records that are there in full, with no corruption report |
| LogRoundTrip.TruncatedLogServes | LoginPage_Udemy/Pods/leveldb-library/db/log_reader.cc:56-174 | record by record: each complete one is returned, then the end |
| LogRoundTrip.ReadWritten | LoginPage_Udemy/Pods/leveldb-library/db/log_reader.cc:189-271 | a written physical record is parsed as written if all of it is there, and as the end of the file otherwise |
| LogRoundTrip.WrittenChain | LoginPage_Udemy/Pods/leveldb-library/db/log_writer.cc:34-80 | a record's fragments stand one after the other, never across a block, with the types first, middle and last in order |
| LogFormat.Writer.AddRecord | LoginPage_Udemy/Pods/leveldb-library/db/log_writer.cc:34-80 | terminates and appends the fragments of the record at the file's offset, empty fragments included |
| LogFormat.Writer.EmitPhysicalRecord | LoginPage_Udemy/Pods/leveldb-library/db/log_writer.cc:82-108 | appends checksum, length, type and payload |
| LogFormat.NextBlock | LoginPage_Udemy/Pods/leveldb-library/db/log_writer.cc:45-58 | after a fragment that does not end the record the next block is empty, so an empty fragment cannot follow an empty one |
| LogFormat.ExtendAppend | LoginPage_Udemy/Pods/leveldb-library/util/crc32c.h:16-20 | extending a checksum twice is extending it by both parts |
| LogFormat.UnmaskMask | LoginPage_Udemy/Pods/leveldb-library/util/crc32c.h:29-38 | unmasking undoes masking |
| LogReader.Reader.ReadRecord | LoginPage_Udemy/Pods/leveldb-library/db/log_reader.cc:56-174 | computes the reading function on any file, with its reports |
| LogReader.Reader.ReadPhysicalRecord | LoginPage_Udemy/Pods/leveldb-library/db/log_reader.cc:189-271 | computes the parsing function on any file, with its reports |
| LogSoundness.PhysicalIff | LoginPage_Udemy/Pods/leveldb-library/db/log_reader.cc:243-256 | a record that fits the buffer is returned if and only if its stored checksum is that of its type and payload; otherwise the buffer is dropped and reported exactly once |
| LogSoundness.PhysicalSound | LoginPage_Udemy/Pods/leveldb-library/db/log_reader.cc:189-271 | whatever the file, a returned fragment stands in it with header and checksum, where the reader was or at the start of the next block |
| LogSoundness.LoopSound | LoginPage_Udemy/Pods/leveldb-library/db/log_reader.cc:56-174 | whatever the file, a returned record is spelled by such fragments, one directly after the other, of the types full, or first, middle and last |
| LogSoundness.RecordsAreWritten | LoginPage_Udemy/Pods/leveldb-library/db/log_reader.cc:56-174 | so every record read from any file was written there as a record |
| Recovery.RecoveryIsPrefix | LoginPage_Udemy/Pods/leveldb-library/db/db_impl.cc:371-510 | recovery from a log cut off at any byte yields exactly the groups logged in full, each all or nothing, with their numbers, and succeeds even with paranoid checks |
| Recovery.CrashRecovery | LoginPage_Udemy/Pods/leveldb-library/db/db_impl.cc:371-510 | after a run of the write queue the recovered memtable is a prefix of the one it had, and equal to it if the whole log is there and no sync has failed |
| Recovery.RecoverLogFile | LoginPage_Udemy/Pods/leveldb-library/db/db_impl.cc:371-510 | computes the recovery function on any file |
| Recovery.AnyFileRecovers | LoginPage_Udemy/Pods/leveldb-library/db/db_impl.cc:371-510 | from any file, without paranoid checks: recovery never fails and replays every record that can be read, each as far as it is well formed |
| Recovery.ParanoidIff | LoginPage_Udemy/Pods/leveldb-library/db/db_impl.cc:371-510 | with paranoid checks it succeeds if and only if no corruption is reported and every record is accepted; then all have been replayed |
| Recovery.LogReplaysToMemTable | LoginPage_Udemy/Pods/leveldb-library/db/db_impl.cc:1215-1225 | log and memtable of the queue hold the same updates under the same numbers as long as no sync fails |
| MemTables.RecordRoundTrip | LoginPage_Udemy/Pods/leveldb-library/db/memtable.cc:75-98 | an entry read behind its pointer is the entry that was added |
| MemTables.Add | LoginPage_Udemy/Pods/leveldb-library/db/memtable.cc:75-98 | the buffer is the entry's encoding |
| MemTables.PackOrders | LoginPage_Udemy/Pods/leveldb-library/db/dbformat.cc:14-18 | packed numbers order entries by sequence number, then type |
| SkipLists.SkipList.Insert | LoginPage_Udemy/Pods/leveldb-library/db/skiplist.h:337-368 | adds exactly the new key in a sequence of single stores, one pointer, one new node or the height at a time; after each of them every level is sorted, runs through a subset of the level below and has lost no node |
| SkipLists.ReadersMissNothing | LoginPage_Udemy/Pods/leveldb-library/db/skiplist.h:261-282 | a search that runs among a writer's stores returns the earliest node at or after its target at that moment and misses no key that was there when it began |
| SkipLists.PublishOk | LoginPage_Udemy/Pods/leveldb-library/db/skiplist.h:362-367 | the store that publishes a node on one level keeps all levels consistent |
| SkipLists.PrivateStoreOk | LoginPage_Udemy/Pods/leveldb-library/db/skiplist.h:362-366 | the store into the unpublished node is seen by nobody |
| SkipLists.SkipList.FindGreaterOrEqual | LoginPage_Udemy/Pods/leveldb-library/db/skiplist.h:261-282 | the earliest node at or after the key, and on every level the last node before it |
| SkipLists.SkipList.FindLessThan | LoginPage_Udemy/Pods/leveldb-library/db/skiplist.h:284-303 | the last node before the key, or the head |
| SkipLists.SkipList.FindLast | LoginPage_Udemy/Pods/leveldb-library/db/skiplist.h:305-323 | the node with the greatest key, or the head of an empty list |
| SkipLists.SkipList.Contains | LoginPage_Udemy/Pods/leveldb-library/db/skiplist.h:370-378 | whether the key was inserted |
| SkipLists.SkipListIterator.Next | LoginPage_Udemy/Pods/leveldb-library/db/skiplist.h:207-210 | the least key above |
| SkipLists.SkipListIterator.Prev | LoginPage_Udemy/Pods/leveldb-library/db/skiplist.h:213-221 | the greatest key below |
| SkipLists.SkipListIterator.Seek | LoginPage_Udemy/Pods/leveldb-library/db/skiplist.h:224-226 | the least key at or above the target |
| SkipLists.WalkIsSortedContents | LoginPage_Udemy/Pods/leveldb-library/db/skiplist.h:207-231 | a walk from the first key by Next meets every key once, in order |
| Blocks.EntryRoundTrip | LoginPage_Udemy/Pods/leveldb-library/table/block.cc:54-74 | a written entry decodes to its lengths, key delta and value, by the fast path or the slow one |
| Blocks.FastPath | LoginPage_Udemy/Pods/leveldb-library/table/block.cc:58-66 | three bytes below 128 are read as the varint decoder would read them |
| BlockBuilding.BlockBuilder.Add | LoginPage_Udemy/Pods/leveldb-library/table/block_builder.cc:72-104 | the block then holds one more item; every interval-th is a restart point with its whole key, and each other shares with the one before exactly the longest common front of the two keys |
| BlockBuilding.BlockBuilder.Finish | LoginPage_Udemy/Pods/leveldb-library/table/block_builder.cc:62-70 | a block in which a reader finds the restart array and exactly the added items |
| BlockBuilding.FinishedLayout | LoginPage_Udemy/Pods/leveldb-library/table/block.cc:19-39 | the restart count and offsets are read back from the end of the block |
| BlockIterator.Iter.Seek | LoginPage_Udemy/Pods/leveldb-library/table/block.cc:163-201 | the first item whose key is not before the target |
| BlockIterator.Iter.FindRestart | LoginPage_Udemy/Pods/leveldb-library/table/block.cc:163-188 | the binary search finds a restart point before which every key is before the target |
| BlockIterator.Iter.Next | LoginPage_Udemy/Pods/leveldb-library/table/block.cc:137-140 | the next item, key and value restored |
| BlockIterator.Iter.Prev | LoginPage_Udemy/Pods/leveldb-library/table/block.cc:142-161 | the item before, so Prev undoes Next |
| BlockIterator.Iter.SeekToFirst | LoginPage_Udemy/Pods/leveldb-library/table/block.cc:203-206 | the first item |
| BlockIterator.Iter.SeekToLast | LoginPage_Udemy/Pods/leveldb-library/table/block.cc:208-213 | the last item |
| BlockIterator.Iter.ParseNextKey | LoginPage_Udemy/Pods/leveldb-library/table/block.cc:224-250 | the item at the next offset with its full key and its value, or the end |
| Separators.FindShortestSeparator | LoginPage_Udemy/Pods/leveldb-library/util/comparator.cc:29-50 | shortened exactly where the first different bytes leave room; then before the limit, not before the start, and no key between the two is shorter |
| Separators.FindShortSuccessor | LoginPage_Udemy/Pods/leveldb-library/util/comparator.cc:52-64 | not before the key, and no key that is not before it is shorter |
| Separators.FindInternalSeparator | LoginPage_Udemy/Pods/leveldb-library/db/dbformat.cc:69-86 | between the two internal keys; changed exactly where the user key gets shorter, then strictly between theirs and before all its versions |
| Separators.FindInternalSuccessor | LoginPage_Udemy/Pods/leveldb-library/db/dbformat.cc:88-101 | not before the internal key, its user key as short as any that is not before |
| Tables.TableBuilder.Add | LoginPage_Udemy/Pods/leveldb-library/table/table_builder.cc:94-123 | one more row at the end, the index key of the finished block placed between it and the new row |
| Tables.TableBuilder.Finish | LoginPage_Udemy/Pods/leveldb-library/table/table_builder.cc:198-253 | a table that holds the added rows in order, its index separating the blocks, its filter told of every row |
| Tables.ScanTable | LoginPage_Udemy/Pods/leveldb-library/db/repair.cc:262-279 | SeekToFirst and then Next until the end give every row of a table once, key and value, in order; of a table from Finish, exactly the added rows |
| Tables.SeekRow | LoginPage_Udemy/Pods/leveldb-library/table/two_level_iterator.cc:82-87 | seeking in a table lands on the first of all its rows that is not before the target, or on the end if there is none |
| Tables.BuildTable | LoginPage_Udemy/Pods/leveldb-library/db/builder.cc:17-50 | the table of a sorted run holds exactly its rows, and its bounds are the first and the last key |
| Tables.InternalGet | LoginPage_Udemy/Pods/leveldb-library/table/table.cc:216-244 | reading the one block that the index names, or none if the filter denies the key, finds the newest entry of a user key at or below the target whenever the table has one, although index keys are shortened; what is returned is the first row at or after the target |
| Tables.InThisBlock | LoginPage_Udemy/Pods/leveldb-library/table/table.cc:216-244 | if any row of the user is at or after the target, the block that the index names has one |
| Tables.FilterBlockIsSound | LoginPage_Udemy/Pods/leveldb-library/table/filter_block.cc:90-104 | a filter block that denies nothing it was told is sound for the table |
| FilterBlocks.FilterBlockBuilder.Finish | LoginPage_Udemy/Pods/leveldb-library/table/filter_block.cc:35-49 | for non-decreasing block offsets the finished block answers for every key and offset exactly as the policy does on the filter of the keys added in the same 2 KB, so no added key is denied |
| FilterBlocks.FilterBlockBuilder.StartBlock | LoginPage_Udemy/Pods/leveldb-library/table/filter_block.cc:21-27 | writes the filters up to the one that covers the offset |
| FilterBlocks.FilterBlockBuilder.GenerateFilter | LoginPage_Udemy/Pods/leveldb-library/table/filter_block.cc:51-75 | one more filter, made of exactly the pending keys |
| FilterBlocks.FilteredKeyMatches | LoginPage_Udemy/Pods/leveldb-library/table/filter_block.cc:77-104 | a key of a filter's group is found through the offsets at the end of the block |
| FilterBlocks.FilterAnswers | LoginPage_Udemy/Pods/leveldb-library/table/filter_block.cc:90-104 | for every key the reader's answer is the policy's on the filter of the offset's group, and yes beyond the last group |
| FilterBlocks.ErrorsMatch | LoginPage_Udemy/Pods/leveldb-library/table/filter_block.cc:77-104 | contents that cannot be a filter block, or a filter in it, deny no key, whatever they are |
| FilterBlocks.BloomPolicy | LoginPage_Udemy/Pods/leveldb-library/util/bloom.cc:28-80 | the Bloom policy never denies a key, for any number of bits per key |
| Bloom.NoFalseNegatives | LoginPage_Udemy/Pods/leveldb-library/util/bloom.cc:28-80 | every key that a filter was made of may match it |
| Bloom.MayMatchIff | LoginPage_Udemy/Pods/leveldb-library/util/bloom.cc:28-80 | the filter of some keys lets through exactly the keys each of whose probe positions is a probe position of one of those |
| Bloom.EmptyDenies | LoginPage_Udemy/Pods/leveldb-library/util/bloom.cc:28-80 | the filter of no keys denies every key |
| Bloom.FilterSize | LoginPage_Udemy/Pods/leveldb-library/util/bloom.cc:29-37 | a filter has at least 64 bits and at least the bits asked for, to the next byte |
| Bloom.BloomFilterPolicy.CreateFilter | LoginPage_Udemy/Pods/leveldb-library/util/bloom.cc:28-54 | appends the bits of all probes of all keys, and the number of probes |
| Bloom.BloomFilterPolicy.KeyMayMatch | LoginPage_Udemy/Pods/leveldb-library/util/bloom.cc:56-80 | for any filter: no if it is shorter than two bytes, yes if it claims more than 30 probes, otherwise exactly whether the bits of all its probes are set |
| LruCache.LRUCache.Insert | LoginPage_Udemy/Pods/leveldb-library/util/cache.cc:266-303 | the new entry is the only one of its key, then either the usage fits or nothing unused is left, and what was evicted is the front of the list of unused entries, longest unused first and without the replaced entry of the key, no more than needed |
| LruCache.LRUCache.Lookup | LoginPage_Udemy/Pods/leveldb-library/util/cache.cc:252-259 | finds the entry of the key exactly if the cache has it, and takes it into use |
| LruCache.LRUCache.Release | LoginPage_Udemy/Pods/leveldb-library/util/cache.cc:261-264 | the last reference of all deletes the entry, the last but the cache's own makes it the newest unused one |
| LruCache.LRUCache.Erase | LoginPage_Udemy/Pods/leveldb-library/util/cache.cc:318-321 | the key leaves the cache; an entry still held lives on, an unused one is deleted |
| LruCache.LRUCache.Prune | LoginPage_Udemy/Pods/leveldb-library/util/cache.cc:323-333 | every unused entry is deleted, nothing else |
| LruCache.LRUCache.Destroy | LoginPage_Udemy/Pods/leveldb-library/util/cache.cc:205-215 | when nobody holds a handle, the deleter has run exactly once for every entry ever created |
| LruCache.LRUCache.EvictUntilFit | LoginPage_Udemy/Pods/leveldb-library/util/cache.cc:293-300 | evicts from the old end of the list until the usage fits |
| LruCache.LRUCache.FinishErase | LoginPage_Udemy/Pods/leveldb-library/util/cache.cc:307-316 | the entry leaves lists, usage and count; lists, counts, usage and deletions stay consistent |
| LruCache.LRUCache.Ref | LoginPage_Udemy/Pods/leveldb-library/util/cache.cc:217-223 | an unused entry moves to the in-use list, consistency kept |
| LruCache.LRUCache.Unref | LoginPage_Udemy/Pods/leveldb-library/util/cache.cc:225-237 | deletes at zero references, consistency kept |
| LruCache.HandleTable.Insert | LoginPage_Udemy/Pods/leveldb-library/util/cache.cc:78-92 | replaces the entry of the same key and returns it, or adds one |
| LruCache.HandleTable.Remove | LoginPage_Udemy/Pods/leveldb-library/util/cache.cc:94-102 | removes and returns the entry of the key, if there is one |
| LruCache.HandleTable.Lookup | LoginPage_Udemy/Pods/leveldb-library/util/cache.cc:74-76 | the entry of the key exactly if there is one |
| LruCache.HandleTable.Resize | LoginPage_Udemy/Pods/leveldb-library/util/cache.cc:122-147 | the same entries in a power of two buckets, no fewer than the entries |
| LruCache.SlotIsRemainder | LoginPage_Udemy/Pods/leveldb-library/util/cache.cc:115 | for such a number of buckets the masked hash is the remainder, so every bucket is reached |
| Rings.RemoveFromRing | LoginPage_Udemy/Pods/leveldb-library/util/cache.cc:239-242 | splicing a node out of a circular list leaves the list without it |
| Rings.AppendToRing | LoginPage_Udemy/Pods/leveldb-library/util/cache.cc:244-250 | linking a node before the head appends it to the list |
| Coding.Fixed32RoundTrip | LoginPage_Udemy/Pods/leveldb-library/util/coding.cc:9-18 | decoding undoes encoding, whatever follows |
| Coding.Fixed64RoundTrip | LoginPage_Udemy/Pods/leveldb-library/util/coding.cc:20-33 | decoding undoes encoding, whatever follows |
| Coding.Varint32RoundTrip | LoginPage_Udemy/Pods/leveldb-library/util/coding.cc:112-140 | decoding undoes encoding and leaves what follows |
| Coding.Varint64RoundTrip | LoginPage_Udemy/Pods/leveldb-library/util/coding.cc:142-169 | decoding undoes encoding and leaves what follows |
| Coding.SliceRoundTrip | LoginPage_Udemy/Pods/leveldb-library/util/coding.cc:181-190 | a length-prefixed slice is read back and leaves what follows |
| Coding.GetVarintPtr | LoginPage_Udemy/Pods/leveldb-library/util/coding.cc:112-157 | the decoding loop computes the value of the bytes up to the first without the top bit |
| Coding.VarintRead | LoginPage_Udemy/Pods/leveldb-library/util/coding.cc:112-157 | what is read as a varint is a varint: at most so many bytes, all but the last with the top bit, of that value |
| Coding.VarintReads | LoginPage_Udemy/Pods/leveldb-library/util/coding.cc:112-157 | every varint is read, also one that spends more bytes than needed |
| KnownBytes.Varints | LoginPage_Udemy/Pods/leveldb-library/util/coding.cc:9-90 | small numbers byte by byte |
| KnownBytes.Batch | LoginPage_Udemy/Pods/leveldb-library/db/write_batch.cc:5-14 | a batch of two updates byte by byte |
| KnownBytes.Checksums | LoginPage_Udemy/Pods/leveldb-library/util/crc32c.h:16-38 | the mask and the checksum of short data in numerals |
| KnownBytes.LogHeader | LoginPage_Udemy/Pods/leveldb-library/db/log_writer.cc:82-108 | the seven bytes in front of a fragment and what the checksum covers |
| KnownBytes.LogFragment | LoginPage_Udemy/Pods/leveldb-library/db/log_writer.cc:34-80 | fragment types by number, and no fragment across a boundary of 32 KB |
| Tables.TableCuts | LoginPage_Udemy/Pods/leveldb-library/table/table.cc:210-214 | the index of a built table cuts its blocks of rows at every target, which is what the two-level iterator needs to seek in it |
| SkipLists.SearchBegins | LoginPage_Udemy/Pods/leveldb-library/db/skiplist.h:263-266 | a search may begin at the head on any level, an outdated height included |
| BlockIterator.Iter.ValidIff | LoginPage_Udemy/Pods/leveldb-library/table/block.cc:126 | valid exactly if the iterator is at an item |
| BlockBuilding.BlockBuilder.Reset | LoginPage_Udemy/Pods/leveldb-library/table/block_builder.cc:47-54 | an empty block again |
| FilterBlocks.FilterBlockBuilder.AddKey | LoginPage_Udemy/Pods/leveldb-library/table/filter_block.cc:29-33 | the key counts as added under the offset of the block started last |
| Snapshots.SnapshotList.Empty | LoginPage_Udemy/Pods/leveldb-library/db/snapshot.h:46 | true exactly if there is no live snapshot |
| MemTables.PackBack | LoginPage_Udemy/Pods/leveldb-library/db/dbformat.h:165-174 | sequence number and type come apart again |
| ProtobufRoundTrip.DecodeUndoesEncode | LoginPage_Udemy/Pods/nanopb/pb_decode.c:1075-1087 | for every descriptor tree with distinct tags and every message that fits it, decoding the encoding gives back the message |
| ProtobufRoundTrip.DecodeProjects | LoginPage_Udemy/Pods/nanopb/pb_decode.c:925-1073 | a decoder whose descriptor leaves out fields, of the message or of messages nested in it at any depth, gets exactly the fields it knows, because skipping passes over exactly one field |
| ProtobufRoundTrip.FieldsBack | LoginPage_Udemy/Pods/nanopb/pb_decode.c:942-1073 | each field's bytes set that field and nothing else, members of a oneof and required fields included |
| ProtobufRoundTrip.ValueBack | LoginPage_Udemy/Pods/nanopb/pb_decode.c:1503-1525 | every value is read back from its bytes, whatever follows, a nested message as far as the decoder knows it |
| ProtobufRoundTrip.DefaultsPart | LoginPage_Udemy/Pods/nanopb/pb_decode.c:847-923 | the part of a default message that a decoder knows is its own default message |
| ProtobufRoundTrip.SkipValueBack | LoginPage_Udemy/Pods/nanopb/pb_decode.c:321-331 | skipping by wire type passes over exactly one value |
| ProtobufSoundness.SkipsExactly | LoginPage_Udemy/Pods/nanopb/pb_decode.c:249-331 | on any bytes skipping takes a varint of any length, 8 bytes, or 4 bytes, and fails for the other wire types |
| ProtobufRoundTrip.PackedBack | LoginPage_Udemy/Pods/nanopb/pb_decode.c:417-452 | a packed array is read back item by item |
| ProtobufRoundTrip.TaggedSteps | LoginPage_Udemy/Pods/nanopb/pb_decode.c:453-464 | a repeated field of any type, packable ones included, whose items come tagged one by one is read back behind the items there already |
| ProtobufRoundTrip.PackedStep | LoginPage_Udemy/Pods/nanopb/pb_decode.c:425-452 | a packed record is read behind the items there already |
| ProtobufRoundTrip.MixedSteps | LoginPage_Udemy/Pods/nanopb/pb_decode.c:424-464 | however a sender splits a repeated field into packed records and single items, the decoder gets all items in order, or fails if they are more than the maximum |
| ProtobufSoundness.DecodedHolds | LoginPage_Udemy/Pods/nanopb/pb_decode.c:1075-1087 | whatever the bytes: a decoded message is one that its C struct can hold, numbers in range, strings, bytes and arrays within their maximum, on every level, at most one member of a oneof chosen |
| ProtobufSoundness.ChosenAt | LoginPage_Udemy/Pods/nanopb/pb_decode.c:466-478 | choosing a member of a oneof resets the other members and touches nothing else |
| ProtobufSoundness.RequiredIff | LoginPage_Udemy/Pods/nanopb/pb_decode.c:1030-1070 | decoding fails exactly where parsing fails or one of the first 64 required fields is not in the stream |
| ProtobufSoundness.NegativeAsUnsigned | LoginPage_Udemy/Pods/nanopb/pb_decode.c:1337-1346 | a negative integer of at most 32 bits that was sent as an unsigned 32-bit number is read as what it was |
| ProtobufSoundness.OmittedIff | LoginPage_Udemy/Pods/nanopb/pb_encode.c:234-328 | a field takes no bytes if and only if it is not required and holds its default, a singular one only if its type's default is recognised as zero |
| KnownBytes.Message | LoginPage_Udemy/Pods/nanopb/pb_encode.c:599-660 | tags, numbers and lengths byte by byte |
| ProtobufRoundTrip.AllUnsetIsDefaults | LoginPage_Udemy/Pods/nanopb/pb_encode.c:237-328 | a message that the encoder leaves out as zero is the message of defaults |
| ProtobufRoundTrip.SignBack | LoginPage_Udemy/Pods/nanopb/pb_decode.c:1329-1364 | negative integers of every width survive the trip through 64 bits |
| ProtobufRoundTrip.ZigZagBack | LoginPage_Udemy/Pods/nanopb/pb_decode.c:1269-1281 | zigzag decoding undoes zigzag encoding |
| ProtobufRoundTrip.Varint32Back | LoginPage_Udemy/Pods/nanopb/pb_decode.c:187-247 | the 32-bit varint decoder reads back every 32-bit value |
| ProtobufSoundness.Varint32Exact | LoginPage_Udemy/Pods/nanopb/pb_decode.c:187-247 | on the bytes of any 64-bit number the 32-bit decoder succeeds exactly for numbers of 32 bits and for those with bit 31 and the top bit set whose bits from 35 on come in sevens of zeros or ones, which it cuts to 32 bits; bits 32 to 34 play no part |
| ProtobufSoundness.NotASignExtension | LoginPage_Udemy/Pods/nanopb/pb_decode.c:215-239 | a number of 64 bits that is neither small nor a sign extension and is taken for a negative one of 32 bits |
| ProtobufStreams.Encode | LoginPage_Udemy/Pods/nanopb/pb_encode.c:519-541 | a sizing stream counts exactly the bytes that a writing stream emits, and writing succeeds exactly if they fit and no array or bytes field exceeds its maximum |
| ProtobufStreams.EncodeSubmessage | LoginPage_Udemy/Pods/nanopb/pb_encode.c:708-756 | the size taken first is the size written, so the substream is exactly filled |
| ProtobufStreams.EncodeArray | LoginPage_Udemy/Pods/nanopb/pb_encode.c:144-233 | one packed record or one record an item, or failure beyond the maximum count |
| ProtobufStreams.EncodeField | LoginPage_Udemy/Pods/nanopb/pb_encode.c:332-417 | the field as its rule demands, or nothing when unset |
| ProtobufStreams.GetEncodedSize | LoginPage_Udemy/Pods/nanopb/pb_encode.c:558-567 | the number of bytes of the encoding |
| ProtobufStreams.EncodeToBuffer | LoginPage_Udemy/Pods/nanopb/pb_encode.c:103-122 | fills a buffer exactly if the encoding fits |
| ProtobufStreams.VarintBytes | LoginPage_Udemy/Pods/nanopb/pb_encode.c:599-619 | the buffer loop computes the varint |
| ProtobufIter.FieldIter.Find | LoginPage_Udemy/Pods/nanopb/pb_common.c:78-97 | from wherever the iterator stands a field is found exactly if the descriptor has it, and otherwise the iterator is back where it was; an empty descriptor is taken for its terminator |
| ProtobufIter.DecodeNoinit | LoginPage_Udemy/Pods/nanopb/pb_decode.c:925-1073 | the loop with its circling iterator and a bit for each of the first 64 required fields computes the decoding function, unless the descriptor is empty and skipping from the start of the stream comes to a field number zero, which is exactly when it reports that |
| ProtobufIter.SameField | LoginPage_Udemy/Pods/nanopb/pb_common.c:78-97 | with unique tags the iterator finds the field that a search from the start of the descriptor finds |
| ProtobufIter.AllTracked | LoginPage_Udemy/Pods/nanopb/pb_decode.c:1030-1070 | the bits below the count are all set exactly if none of the first 64 required fields is missing |
| ProtobufIter.FieldIter.CountRequired | LoginPage_Udemy/Pods/nanopb/pb_decode.c:1036-1048 | from wherever the iterator stands, running on to the end counts all required fields |
| ProtobufIter.FieldIter.Next | LoginPage_Udemy/Pods/nanopb/pb_common.c:20-76 | one field on or back to the first, with the number of required fields before it |

## Left out

- The flush that can run in the middle of a compaction (db_impl.cc:907-918): flush and compaction are separate steps, with writes and snapshots between the start of a compaction and its install.
- User keys of the state machine are integers; only their order matters, and any finite set of ordered keys embeds in them. `Separators` and the formats work on bytes.
- Corrupted input outside the logs: blocks, tables and tables' footers are those that a builder wrote. The log reader, manifest recovery and the batch and edit decoders are modelled on all inputs.
- Read and write errors of files, except in the write queue, where logging and syncing may fail.
- Which level is compacted and from which of its files, by seek statistics, compaction scores (floating point) and the compaction pointer: parameters of `Picking.PickCompaction`.
- Where output files are cut by size and overlap with grandparents (`ShouldStopBefore`): any cut is allowed in `Compactions`.
- Waiting and slowing down in `MakeRoomForWrite`: whether room is found, and whether a memtable is switched for it, are parameters of `WriteQueue.Queue.Begin`, the latter forced for a writer without a batch.
- `VersionSets.VersionSet.LogAndApply`: the case in which all writes of the manifest succeed; a crash between them is `VersionSets.CrashAndRecover`, but going on after a failed write is not modelled, nor are reusing an old manifest and the file CURRENT.
- `VersionSets.VersionSet.Recover`: requires a manifest whose readable edits never give a level the same file number twice, which is what `VersionSets.VersionSet.LogAndApply` writes; what the builder makes of others is not modelled.
- How internal keys stand in an edit: `Manifest` takes any encoding and decoding, and a fresh manifest requires that the keys of the present files come back.
- Writing a level-0 table in the middle of `RecoverLogFile`: the recovered updates are counted together.
- The reader's initial offset and resynchronisation in the log: reading starts at offset zero.
- CRC32C itself: the log is proved for any byte-wise checksum step.
- Compression, block cache keys, footer and metaindex of tables; `Tables` works on rows, and the bytes of one block are in `Blocks`.
- `HandleTable`'s chains are sequences of handles in bucket order; sharding of the cache by hash is not modelled.
- The skip list's arena and memory ordering: nodes are indices, and each pointer store is one atomic step.
- MergingIterator with one key in two children: `Merging` requires that children share no key, which `Iterators.SourcesMergeable` proves of the database.
- nanopb's callbacks, extensions, pointer fields, arrays of fixed count and default values other than zero.
- Varints of more than 36 bytes in `pb_decode_varint32`, where the bit position wraps around.
- `ProtobufIter.DecodeNoinit`: what the decoder does when a field number zero meets the terminator of an empty descriptor is not modelled; the method reports that it happened.
- The two words of `fields_seen` are 64 booleans in `ProtobufIter.DecodeNoinit`.
- Lengths, offsets and counts that do not fit the 32 bits the formats give them: builders and writers are proved for sizes below that.
- CompactRange: manual compactions of one level are modelled; the loop that walks the levels and the waiting for it are not.
- The app's own Swift code, Firebase and the other libraries.
