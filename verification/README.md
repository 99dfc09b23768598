# A Dafny model of LevelDB and nanopb

This project models two libraries the application vendors and proves what they promise.

**LevelDB** (`ios/Pods/leveldb-library`) is a log-structured merge tree. Every part of it is modelled as a refinement
of one simple object, a set of entries `(user key, sequence, kind) -> value`, and of one reading of it: the newest
entry of a user key with a sequence number at or below the snapshot, where a deletion reads as absent
(`InternalKeys.Read`).

- *Versions and compaction* (`Versions`, `VersionGet`, `CompactionInputs`, `Compactions`, `CompactionWork`,
  `LevelEdits`, `LevelOrder`, `Resurrection`, `ResurrectionRuns`, `CompactionRuns`): searches over levels, the choice of compaction
  inputs, the drop rules, and the invariant that shallower data is newer. The main result says, for each user key,
  exactly when a compaction preserves its reads at every live snapshot; within the range of the level's own inputs it
  always does.
- *The engine as a state machine* (`Engine`, `EngineSteps`, `EngineReads`, `Recovery`, `DbGet`, `DbScan`): log appends, memtable
  insertion and switching, flushes, trivial moves, compactions, MANIFEST appends, deletion of obsolete files,
  snapshots, crashes and recovery. Compactions are taken as the code takes them. In every reachable state of every run
  the levels are in order, the disk alone holds the history up to entries that a newer one hides or that were
  deletions, and every present value is read from it; user keys that no compaction has split read exactly as the full
  history of writes says, by point lookup and by iterator.
- *The iterator stack* (`Cursors`, `BlockIterators`, `TwoLevelIterators`, `Merger`, `SortedRuns`, `IteratorStack`,
  `DbIterator`): each cursor moves in both directions and changes direction at any time. Driven by any list of calls,
  the two-level and the merging iterator stand where a plain cursor over one sorted run stands (`Cursors.Stepped`
  defines that once for all of them), so either may take the place of the plain cursor that the one above it is
  proved over; the merged inputs of a compaction are the run its work loop asks for.
- *Index structures* (`SkipLists`, `MemTables`, `Snapshots`, `BlockFormat`, `BlockBuilders`, `FilterBlocks`,
  `Separators`, `Tables`): the skip list is valid after each single pointer store; blocks, filters and index
  separators never lose a key.
- *Durability* (`Coding`, `LogFormat`, `LogWriter`, `LogReader`, `LogCrash`, `VersionEdits`, `Manifest`, `WriteBatches`,
  `GroupCommit`): the log under truncation, the edit encoding, MANIFEST replay, write batches and the writer queue.

**nanopb** (`ios/Pods/nanopb`) is a descriptor-driven Protocol Buffers codec (`PbFormat`, `PbEncode`, `PbDecode`,
`PbDecoder`, `PbWire`, `PbFields`). The counting pass and the writing pass are the same methods on two kinds of stream, as in the source,
and agree byte for byte; decoding an encoded message gives it back exactly when a stated condition holds. What the
decoder makes of other bytes, known and unknown fields, is stated field by field in numbers, and whatever they are it
stores nothing outside the message's members.

## How it is modelled

- Objects the source updates in place are classes whose methods are proved against functions of the old state; pure
  code is functions. Threads are interleaved atomic steps, and storage is bytes or sets of entries.
- User keys are reals in the engine modules. The source only compares them, and every countable total order embeds
  in the rationals, so nothing is lost. Code that looks at bytes works on bytes: the block cursor compares keys by an
  arbitrary ranking of byte strings, and the bytewise separators are proved in `Separators`, while `Tables` takes any
  separator that keeps the comparator's documented contract and leaves a key alone when both ends are that key.
- The checksum and the filter policy are arbitrary functions; the policy is only asked to have no false negatives.
  Blocks are stored uncompressed.
- Sequence numbers stay below 2^56 - 1, the source's own bound. A crash is a crash of the process: what was appended to a file
  stays. `GroupCommit` also tracks how much of the log was synced.

## Where the code does less than its documentation says

- `VersionSet::SetupOtherInputs` adds boundary files only for the compaction's own level. If two files of the next
  level split one user key and only the first, with the key's deletion, is an input, then the deletion can be
  dropped while an older value stays in the second. `Resurrection.DeletedValueComesBack` is such a state, and
  `ResurrectionRuns.DeletedValueIsRead` a whole run from an empty database to the wrong read: a snapshot keeps both
  versions of the key while a compaction cuts its output between them, and is released before the next compaction.
  `CompactionWork.SameReadsIffNothingResurfaces` is the exact condition for each user key: its reads at all live
  snapshots are preserved if and only if no deletion of that key that is dropped as obsolete hides a value left
  outside the inputs. `LevelOrder.ResurrectionStraddles` shows that this family is the only one: it takes a next-level
  input that ends with the key and a next-level file left out that starts with it (`LevelOrder.SplitKey`, a test on
  file ranges before the compaction), and a key past the end of the level's own inputs. Over whole runs,
  `EngineReads.EveryRunKeepsPresentValues` says that even then no present value is lost, and
  `EngineReads.UnsplitKeysReadTheirHistory` that keys never split read their history.
- `DecodeEntry` in `block.cc` adds an entry's two lengths in 32 bits, and the sum can wrap around: with the header
  bytes `00`, `ff ff ff ff 0f`, `02` and one byte behind them, an entry with a key of 2^32 - 1 bytes is accepted
  (`BlockFormat.WrappedEntryAccepted`), and the cursor reads past the block. An accepted entry lies within the block
  exactly when its lengths sum to less than 2^32 (`BlockFormat.RunsOverIffWraps`). Blocks a builder wrote always do.
  The model's cursor marks the point where it would leave the block and stops there.
- The bit position in nanopb's 32-bit varint reader is a `uint_fast8_t`, of eight bits on the platforms the
  application runs on, and wraps around after 37 bytes, so later digits are or-ed in again from bit 3 up: 37 bytes
  `80` and a byte `01` are accepted as the number 8. An accepted varint is read as the number it stands for in 32 bits
  if and only if no byte past the first 37 sets a bit that this number does not have
  (`PbDecode.RightIffNoBitsAdded`); all accepted varints of a length are read right if and only if that is at most 37
  bytes (`PbDecode.AllRightIffShort`, with a misread one for every greater length in `PbDecode.LongVarint32Misread`).
- nanopb's encoder accepts a string that fills its buffer without a terminator; its decoder rejects the same string.
  `PbDecode.RoundTripIffTerminated` states the round trip with that condition, in both directions.
- `VersionEdit::Clear` leaves the compaction pointers in place, so decoding into a used edit keeps the old ones
  (`VersionEdits.DecodeInvertsEncode`).
- Replaying the MANIFEST with one builder gives the lists of files that applying its edits one by one gave exactly
  when no edit gives a deleted file number back to its level as a different file and no edit adds a file while the
  level holds one of the same smallest key and number (`Manifest.OnePassIsLive`). A file added twice is listed twice
  live and replayed once (`Manifest.RepeatedFileReplaysOnce`); a deleted file comes back in the replay with the file
  that got its number (`Manifest.ReusedNumberReplaysBoth`). The version set's own use meets the condition.
- In `DBIter::Next`, the test for an invalid internal iterator after the switch from reverse to forward never
  succeeds: the branch is unreachable, as the proof of `DbIterator.DbIter.Next` shows.

## Model

| member | source | states |
|---|---|---|
| InternalKeys.AtMostAntisymmetric | ios/Pods/leveldb-library/db/dbformat.cc:51-67 | user key, sequence and type decide the order completely: keys that are each at most the other are equal |
| InternalKeys.LookupKeySplits | ios/Pods/leveldb-library/db/dbformat.cc:121-137 | seeking to a lookup key passes over exactly the smaller user keys and the entries of the same user key that are too new |
| InternalKeys.FindNewest | ios/Pods/leveldb-library/db/dbformat.cc:51-67 | a read is the value of the newest visible entry, absent when that is a deletion or when there is none |
| Versions.FindFile | ios/Pods/leveldb-library/db/version_set.cc:88-106 | binary search splits the files: all before the index end before the key, none from it on does |
| Versions.SomeFileOverlapsRange | ios/Pods/leveldb-library/db/version_set.cc:122-157 | true exactly when some file overlaps the range, whether searched in order or by bisection |
| Versions.GetOverlappingInputs | ios/Pods/leveldb-library/db/version_set.cc:519-559 | returns exactly the files overlapping the final range; at level 0 that range is closed, covers the asked one, and lies below every closed range that does; terminates in spite of restarts |
| Versions.WidenStaysBelow | ios/Pods/leveldb-library/db/version_set.cc:543-556 | widening by an overlapping file never leaves the least closed range |
| Versions.ProtrudingShrinks | ios/Pods/leveldb-library/db/version_set.cc:543-556 | each restart strictly reduces the files that stick out of the range, so restarting ends |
| Versions.PickLevelForMemTableOutput | ios/Pods/leveldb-library/db/version_set.cc:491-517 | at most level 2, above 0 only if nothing down to it overlaps the new table and, for each level passed, the files two below the level left stay within the grandparent limit; it stops early only for an overlap or too many grandparent bytes |
| VersionGet.FirstAtOrAfterIsNewest | ios/Pods/leveldb-library/db/version_set.cc:263-276 | the first entry at or after the lookup key is the newest visible one when it has the user key; otherwise nothing of that key is visible |
| VersionGet.SortNewestFirstSorts | ios/Pods/leveldb-library/db/version_set.cc:278-280 | sorting level-0 candidates puts higher file numbers first and keeps the same files |
| VersionGet.NewerDecides | ios/Pods/leveldb-library/db/version_set.cc:326-421 | when one store is newer than another, an answer from the newer one is the answer over both, and no answer leaves it to the older one |
| VersionGet.OneFileAnswersLevel | ios/Pods/leveldb-library/db/version_set.cc:365-382 | the single file found by bisection answers for its whole level, even when the user key straddles adjacent files |
| VersionGet.GetLevel0 | ios/Pods/leveldb-library/db/version_set.cc:349-364 | probing the covering level-0 files newest first answers for the whole level |
| VersionGet.AnswersIsRead | ios/Pods/leveldb-library/db/version_set.cc:395-420 | found, deleted and not found map to the read over the same entries |
| VersionGet.Get | ios/Pods/leveldb-library/db/version_set.cc:326-421 | the search that stops at the first answer returns the newest visible entry over all levels |
| DbGet.Get | ios/Pods/leveldb-library/db/db_impl.cc:1100-1145 | memtable, immutable memtable, version in that order return the newest visible entry over all data, at the snapshot or at the last sequence |
| DbGet.GetReadsHistory | ios/Pods/leveldb-library/db/db_impl.cc:1122-1136 | in every reachable state, a lookup at a live snapshot finds every value the history of all writes says is present, and agrees with the history altogether for user keys no compaction has split |
| DbScan.StoreRunsGood | ios/Pods/leveldb-library/db/db_impl.cc:1060-1086 | the iterators over memtables, level-0 tables and concatenated levels are sorted, share no key, and together hold all the data |
| DbScan.ScanShowsHistory | ios/Pods/leveldb-library/db/db_impl.cc:1147-1158 | in every reachable state, the user's iterator at a live snapshot shows every value the history says is present, and for keys no compaction has split nothing else |
| DbScan.Scan | ios/Pods/leveldb-library/db/db_impl.cc:1147-1158 | driven by any list of calls over the merged store, the user's iterator stands where the plain cursor over the visible entries stands |
| CompactionInputs.FindLargestKey | ios/Pods/leveldb-library/db/version_set.cc:1326-1342 | none exactly for no files, otherwise the largest key among them |
| CompactionInputs.GetRange | ios/Pods/leveldb-library/db/version_set.cc:1205-1227 | the least internal-key range holding every selected file |
| CompactionInputs.FindSmallestBoundaryFile | ios/Pods/leveldb-library/db/version_set.cc:1344-1362 | the boundary file with the smallest start, or none exactly when no file of the level is one |
| CompactionInputs.AddBoundaryInputs | ios/Pods/leveldb-library/db/version_set.cc:1378-1401 | the result is the selection and then, one at a time, the boundary file with the smallest start of those gathered, until no file starts after the largest key with its user key; it stays adjacent, terminates, and adds nothing to a closed selection |
| CompactionInputs.SeedNothingOlder | ios/Pods/leveldb-library/db/version_set.cc:1364-1377 | a boundary-free selection leaves nothing older of its user keys behind at its level, the reason boundary files exist |
| CompactionInputs.OverlappingIsRun | ios/Pods/leveldb-library/db/version_set.cc:519-559 | at a sorted level, the files overlapping a range are adjacent |
| CompactionInputs.EqualCountsSameFiles | ios/Pods/leveldb-library/db/version_set.cc:1419-1446 | a wider range overlaps as many files only when they are the same files, so equal counts mean expansion left the next level's inputs unchanged |
| CompactionInputs.ClosedIsBoundaryFree | ios/Pods/leveldb-library/db/version_set.cc:1310-1319 | a level-0 selection closed by GetOverlappingInputs has no boundary files |
| Compactions.PickSeed | ios/Pods/leveldb-library/db/version_set.cc:1270-1322 | the picked file is the first past the compaction pointer, or the first of the level; the seed is that file alone, at level 0 exactly the files overlapping its closed range |
| Compactions.RangeSeed | ios/Pods/leveldb-library/db/version_set.cc:1464-1495 | nothing to do exactly when no file of the level overlaps; otherwise a valid selection, at level 0 the files of the least closed range, at sorted levels the shortest prefix of the overlapping files that reaches the size limit |
| Compactions.PrefixToLimit | ios/Pods/leveldb-library/db/version_set.cc:1476-1487 | the fewest files, at least one, whose sizes reach the limit, or all |
| Compactions.CloseInputs | ios/Pods/leveldb-library/db/version_set.cc:1403-1412 | boundary files are added and the range of the result is taken |
| Compactions.ExpandInputs | ios/Pods/leveldb-library/db/version_set.cc:1419-1446 | the inputs grow to the boundary-free selection over the whole range exactly when that has more files, stays within the byte limit and leaves the next level's count the same; either way they are boundary-free and the next level's inputs exactly the files overlapping their range |
| Compactions.PickGrandparents | ios/Pods/leveldb-library/db/version_set.cc:1449-1454 | exactly the files two levels down that overlap the whole input range, and none when there is no such level |
| Compactions.SelectInputs | ios/Pods/leveldb-library/db/version_set.cc:1403-1462 | the inputs are the boundary closure of the whole range of both levels' inputs exactly when there are next-level inputs, that closure has more files, the bytes of both stay below the limit and the next level's count is the same; otherwise the boundary closure of what was picked. Next level's inputs are exactly the overlapping files, and the pointer is the largest key |
| Compactions.Compaction.SetupOtherInputs | ios/Pods/leveldb-library/db/version_set.cc:1403-1462 | the same for the fields of the Compaction object, with its grandparents |
| Compactions.Compaction.IsBaseLevelForKey | ios/Pods/leveldb-library/db/version_set.cc:1533-1552 | with remembered positions and non-decreasing queries, true exactly when no file two or more levels down covers the user key |
| CompactionWork.AppendOutput | ios/Pods/leveldb-library/db/db_impl.cc:974-996 | opening, filling and closing output files appends the entry to what was written, no output is empty, and the output stays open exactly when it is not full |
| CompactionWork.FinishOutput | ios/Pods/leveldb-library/db/db_impl.cc:811-858 | closing an output keeps all that was written and adds the open output behind the finished ones |
| CompactionWork.DoCompactionWork | ios/Pods/leveldb-library/db/db_impl.cc:878-1045 | the outputs hold, in order, exactly the entries that are the newest of their user key at some snapshot from the smallest live one on and, if deletions, are too new for that one or have a file two levels down or deeper over their key; two successive entries are in one file exactly when no cut was asked for between them |
| CompactionWork.UnshadowedIsNewest | ios/Pods/leveldb-library/db/db_impl.cc:941-947 | an entry escapes the first drop rule exactly when some snapshot from the smallest live one on reads it from the inputs |
| CompactionWork.KeptIffNeeded | ios/Pods/leveldb-library/db/db_impl.cc:941-961 | both drop rules together keep exactly the entries needed in that sense, stated without the rules |
| CompactionWork.NewestSurvives | ios/Pods/leveldb-library/db/db_impl.cc:930-965 | what a live snapshot sees of the inputs survives, or was an obsolete deletion with nothing of that key left for it to see |
| CompactionWork.SameReadsIffNothingResurfaces | ios/Pods/leveldb-library/db/db_impl.cc:930-965 | for each user key, every read at every live snapshot is the same before and after, if and only if no dropped deletion of that key hides a value outside the inputs |
| CompactionWork.DropsAreAccounted | ios/Pods/leveldb-library/db/db_impl.cc:930-965 | whatever is dropped was hidden from every live snapshot by a newer entry of its key, or was a deletion they all see |
| CompactionWork.PresentValuesStay | ios/Pods/leveldb-library/db/db_impl.cc:930-965 | stores that differ only by such entries give the same value wherever the larger one gives a value |
| LevelOrder.ResurrectionStraddles | ios/Pods/leveldb-library/db/version_set.cc:1403-1447 | a resurfacing value sits in a next-level file left out of the inputs that starts with its user key, the newer deletion in a next-level input that ends with it, and the key lies past every input of the level itself |
| LevelOrder.InRangeKeepsReads | ios/Pods/leveldb-library/db/version_set.cc:1403-1447 | for every user key within the range of the level's own final inputs, all reads at live snapshots are preserved, with no further condition |
| LevelOrder.UnsplitKeepsReads | ios/Pods/leveldb-library/db/version_set.cc:1403-1447 | for every user key that is not split between a next-level input and a next-level file left out, all reads at live snapshots are preserved |
| LevelOrder.NoneSplitIffBoundaryFree | ios/Pods/leveldb-library/db/version_set.cc:1378-1401 | no user key is split if and only if the next level's inputs leave no boundary file behind |
| LevelOrder.BoundaryClosedKeepsReads | ios/Pods/leveldb-library/db/version_set.cc:1378-1447 | when the next level's inputs leave no boundary file behind, every read of every key is preserved |
| Resurrection.DeletedValueComesBack | ios/Pods/leveldb-library/db/version_set.cc:1403-1447 | a concrete well-ordered version and legal inputs after whose compaction a deleted value is read again |
| ResurrectionRuns.StraddlingIsReachable | ios/Pods/leveldb-library/db/db_impl.cc:688-1256 | a run of writes, a snapshot, flushes, a compaction cut between two versions of a key, and the snapshot's release ends in that state |
| ResurrectionRuns.DeletedValueIsRead | ios/Pods/leveldb-library/db/db_impl.cc:688-1256 | that run and one more compaction end where a deleted value is read though the history says absent |
| LevelEdits.InsertFilesKeepsLevel | ios/Pods/leveldb-library/db/version_set.cc:695-738 | adding files apart from a sorted level and from each other keeps it sorted and disjoint |
| LevelEdits.AddToData | ios/Pods/leveldb-library/db/db_impl.cc:491-533 | adding a table to a level adds exactly its entries |
| LevelEdits.ReplaceData | ios/Pods/leveldb-library/db/db_impl.cc:860-876 | installing a compaction removes exactly the inputs' entries and adds the outputs' |
| LevelOrder.FlushKeepsOrder | ios/Pods/leveldb-library/db/version_set.cc:491-517 | a table of newer entries placed at the picked level keeps levels sorted, disjoint and ordered by age |
| LevelOrder.InputsOnOneSide | ios/Pods/leveldb-library/db/version_set.cc:1403-1447 | a next-level file that is no input lies wholly on one side of all the input entries |
| LevelOrder.OutputsAreGood | ios/Pods/leveldb-library/db/db_impl.cc:974-996 | the written tables are disjoint, in order, and hold exactly the surviving entries |
| LevelOrder.CompactionKeepsWellFormed | ios/Pods/leveldb-library/db/db_impl.cc:860-876 | after installing a compaction every level is valid, and sorted and disjoint below level 0 |
| LevelOrder.CompactionKeepsAged | ios/Pods/leveldb-library/db/db_impl.cc:860-876 | after installing a compaction shallower entries of a user key are still newer than deeper ones |
| EngineSteps.AppendLogKeeps | ios/Pods/leveldb-library/db/db_impl.cc:1205-1215 | logging a batch keeps the invariant |
| EngineSteps.InsertBatchKeeps | ios/Pods/leveldb-library/db/db_impl.cc:1223-1237 | inserting the logged batch and advancing the last sequence keeps the invariant |
| EngineSteps.SwitchMemtableKeeps | ios/Pods/leveldb-library/db/db_impl.cc:1345-1366 | switching to a new memtable and log keeps the invariant |
| EngineSteps.BeginFlushKeeps | ios/Pods/leveldb-library/db/db_impl.cc:491-533 | writing the immutable memtable to a table keeps the invariant |
| EngineSteps.BeginMoveKeeps | ios/Pods/leveldb-library/db/db_impl.cc:718-730 | moving a single file down keeps the invariant |
| EngineSteps.BeginCompactionKeeps | ios/Pods/leveldb-library/db/db_impl.cc:878-1045 | any compaction with inputs from SetupOtherInputs keeps the invariant over order, sequence numbers and the disk |
| EngineSteps.LogManifestKeeps | ios/Pods/leveldb-library/db/version_set.cc:801-884 | making the edit durable before installing it keeps the invariant |
| EngineSteps.CommitKeeps | ios/Pods/leveldb-library/db/db_impl.cc:535-566 | installing the version and dropping the immutable memtable keeps the invariant |
| EngineSteps.DeleteObsoleteKeeps | ios/Pods/leveldb-library/db/db_impl.cc:223-277 | at any time, deleting tables that neither the current version nor the one being installed names, and logs below the log number, keeps the invariant |
| EngineSteps.TakeSnapshotKeeps | ios/Pods/leveldb-library/db/snapshot.h:57-70 | taking a snapshot keeps the invariant |
| EngineSteps.ReleaseSnapshotKeeps | ios/Pods/leveldb-library/db/snapshot.h:79-86 | releasing a snapshot keeps the invariant |
| EngineSteps.RecoveredVersion | ios/Pods/leveldb-library/db/db_impl.cc:371-489 | adding level-0 tables that are each newer than what came before extends the manifest's version to a well-ordered one, with exactly their entries added |
| EngineSteps.CrashAndRecoverKeeps | ios/Pods/leveldb-library/db/db_impl.cc:280-369 | a crash in any reachable state, at any point of a background install, followed by recovery keeps the invariant |
| EngineSteps.DiskHoldsEverything | ios/Pods/leveldb-library/db/db_impl.cc:240-276 | the manifest's tables and the logs from the log number on hold exactly what readers see or will see plus the batch in flight, and of the whole history lack only entries that were hidden or deletions |
| EngineSteps.NextKeepsInv | ios/Pods/leveldb-library/db/db_impl.cc:688-767 | every step, any compaction included, keeps the invariant and forgets no write |
| EngineSteps.EveryRunKeepsInv | ios/Pods/leveldb-library/db/db_impl.cc:688-1256 | in every state of every run the levels are in order, every table the manifest names is there, and the disk holds the history, which only grows, up to hidden entries and deletions |
| EngineReads.CompactionReads | ios/Pods/leveldb-library/db/db_impl.cc:878-1045 | a compaction step keeps the reads of a user key, now and after its install, if and only if no deleted value of that key resurfaces |
| EngineReads.NextKeepsReads | ios/Pods/leveldb-library/db/db_impl.cc:688-1256 | every step keeps the reads of every user key it does not split |
| EngineReads.DiskReads | ios/Pods/leveldb-library/db/db_impl.cc:240-276 | where reads of a key agree with the history, the disk alone gives them too, with the batch in flight |
| EngineReads.EveryRunKeepsPresentValues | ios/Pods/leveldb-library/db/db_impl.cc:1100-1256 | in every state of every run, after any compactions, each value the history gives at a live snapshot is read from the store and from the disk alone |
| EngineReads.UnsplitKeysReadTheirHistory | ios/Pods/leveldb-library/db/db_impl.cc:1100-1256 | in every state of every run, reads at live snapshots of a key no compaction has split agree with the history, from the store and from the disk alone |
| EngineReads.ClosedRunsReadTheirHistory | ios/Pods/leveldb-library/db/version_set.cc:1378-1447 | in runs whose compactions leave no boundary file behind at the next level, all reads agree with the history |
| Recovery.InsertInto | ios/Pods/leveldb-library/db/write_batch.cc:116-137 | a replayed batch joins the sorted memtable with its own consecutive sequence numbers |
| Recovery.Replay.WriteLevel0Table | ios/Pods/leveldb-library/db/db_impl.cc:491-533 | the memtable becomes exactly one table under the next number; an empty one makes none but uses up the number |
| Recovery.Replay.ReplayBatch | ios/Pods/leveldb-library/db/db_impl.cc:418-452 | one record is inserted, the largest sequence kept, and the memtable written out exactly when it is full |
| Recovery.Replay.RecoverLogFile | ios/Pods/leveldb-library/db/db_impl.cc:371-489 | replay leaves ascending tables that hold exactly the batches, one file number used for every batch that fills the memtable and one for what is left |
| Recovery.LogsToRecover | ios/Pods/leveldb-library/db/db_impl.cc:316-345 | the logs from the manifest's log number on, in order |
| Recovery.Recover | ios/Pods/leveldb-library/db/db_impl.cc:280-369 | fails exactly when the number of a live table is no file on disk; otherwise the tables hold exactly the log data, the last sequence number is the largest of any replayed batch or the one recorded, and the next file number is what the written memtables and the log numbers leave |
| Recovery.Restart | ios/Pods/leveldb-library/db/db_impl.cc:280-369 | from every reachable state recovery succeeds on the disk alone, is the engine's recovery step, and keeps the invariant |
| CompactionRuns.NumberOutputs | ios/Pods/leveldb-library/db/db_impl.cc:786-858 | each output becomes a valid table under the next number with its first and last key as bounds |
| CompactionRuns.PickCompaction | ios/Pods/leveldb-library/db/version_set.cc:1270-1324 | the file past the pointer or the first of the level, closed at level 0, and the inputs and grandparents SetupOtherInputs makes of it, expanded exactly under its condition |
| CompactionRuns.Compact | ios/Pods/leveldb-library/db/db_impl.cc:688-1045 | pick, set up, merge and write together are the engine's compaction step, from the file past the pointer, with inputs expanded exactly under the code's condition and outputs cut exactly where asked |
| DbIterator.VisibleIsRead | ios/Pods/leveldb-library/db/db_iter.cc:168-198 | the visible entries are exactly the present results of point reads at the snapshot |
| DbIterator.VisibleAscending | ios/Pods/leveldb-library/db/db_iter.cc:168-198 | visible entries ascend strictly by user key, so there is one per key |
| DbIterator.DbIter.FindNextUserEntry | ios/Pods/leveldb-library/db/db_iter.cc:168-198 | stops at the next wanted visible entry and passes over none |
| DbIterator.DbIter.FindPrevUserEntry | ios/Pods/leveldb-library/db/db_iter.cc:227-267 | stops at the last visible entry at or before the internal position, saving its key and value, with only invisible entries in between |
| DbIterator.DbIter.Next | ios/Pods/leveldb-library/db/db_iter.cc:141-166 | the next visible entry, from either direction |
| DbIterator.DbIter.Prev | ios/Pods/leveldb-library/db/db_iter.cc:200-225 | the last visible entry before the current one, from either direction |
| DbIterator.DbIter.Seek | ios/Pods/leveldb-library/db/db_iter.cc:269-281 | the first visible entry at or after the target user key, invalid exactly when there is none |
| DbIterator.DbIter.SeekToFirst | ios/Pods/leveldb-library/db/db_iter.cc:283-292 | the first visible entry |
| DbIterator.DbIter.SeekToLast | ios/Pods/leveldb-library/db/db_iter.cc:294-299 | the last visible entry |
| DbIterator.Call | ios/Pods/leveldb-library/db/db_iter.cc:141-299 | any one call (Next and Prev only while valid) moves the iterator as a plain cursor over the visible entries moves |
| DbIterator.Drive | ios/Pods/leveldb-library/db/db_iter.cc:141-299 | after any list of calls with any direction switches, Next and Prev being made only while valid, validity, key and value are those of the plain cursor |
| Merger.MergingIterator.FindSmallest | ios/Pods/leveldb-library/table/merger.cc:148-161 | the valid child with the smallest key, none exactly when no child is valid |
| Merger.MergingIterator.FindLargest | ios/Pods/leveldb-library/table/merger.cc:163-176 | the valid child with the largest key, none exactly when no child is valid |
| Merger.MergingIterator.SeekToFirst | ios/Pods/leveldb-library/table/merger.cc:31-37 | the smallest key of the union |
| Merger.MergingIterator.SeekToLast | ios/Pods/leveldb-library/table/merger.cc:39-45 | the largest key of the union |
| Merger.MergingIterator.Seek | ios/Pods/leveldb-library/table/merger.cc:47-53 | the first key of the union at or after the target |
| Merger.MergingIterator.SwitchToForward | ios/Pods/leveldb-library/table/merger.cc:63-75 | after a change to forward, with distinct keys, every other child is at its first key past the current one, which stays |
| Merger.MergingIterator.SwitchToReverse | ios/Pods/leveldb-library/table/merger.cc:89-104 | after a change to reverse every other child is at its last key before the current one, which stays |
| Merger.MergingIterator.Next | ios/Pods/leveldb-library/table/merger.cc:55-79 | for children with distinct keys, the least key of the union above the current one, from either direction |
| Merger.MergingIterator.Prev | ios/Pods/leveldb-library/table/merger.cc:81-108 | the greatest key of the union below the current one, from either direction |
| SortedRuns.UnionKeeps | ios/Pods/leveldb-library/table/merger.cc:31-79 | the union of sorted runs with distinct keys is sorted and has exactly their entries |
| Cursors.CallCursor | ios/Pods/leveldb-library/db/version_set.cc:164-209 | a cursor over a run moves as the common definition of a step says |
| IteratorStack.CallMerging | ios/Pods/leveldb-library/table/merger.cc:31-108 | any one call (Next and Prev only while valid) moves the merging iterator as a plain cursor over the sorted union moves, entry and value included |
| IteratorStack.DriveMerging | ios/Pods/leveldb-library/table/merger.cc:31-176 | after any list of calls with any direction switches, the merging iterator is valid exactly when a plain cursor over the sorted union is, and shows the same entry |
| IteratorStack.ReadRuns | ios/Pods/leveldb-library/table/merger.cc:31-79 | iterating from the first entry to the last yields the sorted union |
| IteratorStack.ReadInputs | ios/Pods/leveldb-library/db/version_set.cc:1237-1268 | the iterator over a compaction's inputs, one child for each level-0 file and one for each deeper level, yields all their entries in order, each once |
| SkipLists.PublishKeepsWired | ios/Pods/leveldb-library/db/skiplist.h:361-367 | one store of a predecessor's pointer puts the node on one more level and keeps every level a sorted sub-list of the one below |
| SkipLists.InsertKeepsWired | ios/Pods/leveldb-library/db/skiplist.h:361-367 | the store at level 0 puts the node into the list and keeps every level wired |
| SkipLists.SkipList.FindGreaterOrEqual | ios/Pods/leveldb-library/db/skiplist.h:260-281 | the first node at or after the key and, on every level, the last node before it, in every intermediate state |
| SkipLists.SkipList.FindLessThan | ios/Pods/leveldb-library/db/skiplist.h:283-302 | the last node before the key or the head, in every intermediate state |
| SkipLists.SkipList.FindLast | ios/Pods/leveldb-library/db/skiplist.h:304-322 | the last node or the head, in every intermediate state |
| SkipLists.SkipList.SetOwnNext | ios/Pods/leveldb-library/db/skiplist.h:365 | setting the new node's own pointer leaves the list valid and unchanged |
| SkipLists.SkipList.PublishBottom | ios/Pods/leveldb-library/db/skiplist.h:366 | right after the level-0 store the list is valid and holds the node at its place |
| SkipLists.SkipList.Publish | ios/Pods/leveldb-library/db/skiplist.h:366 | right after a higher store the list is valid, with the node on one more level |
| SkipLists.SkipList.FindPlace | ios/Pods/leveldb-library/db/skiplist.h:340-359 | predecessors on every level, the list height raised exactly to the new node if that is higher |
| SkipLists.SkipList.LinkLevel | ios/Pods/leveldb-library/db/skiplist.h:361-367 | one turn of the linking loop keeps the list valid |
| SkipLists.SkipList.LinkNode | ios/Pods/leveldb-library/db/skiplist.h:361-367 | the whole loop inserts the node once, on exactly its levels |
| SkipLists.SkipList.Insert | ios/Pods/leveldb-library/db/skiplist.h:336-368 | the key is added at its place and nothing else changes |
| SkipLists.Iterator.Next | ios/Pods/leveldb-library/db/skiplist.h:206-210 | one node on |
| SkipLists.Iterator.Prev | ios/Pods/leveldb-library/db/skiplist.h:212-221 | one node back without back links, off the list from the first |
| SkipLists.Iterator.Seek | ios/Pods/leveldb-library/db/skiplist.h:223-226 | the first node at or after the target |
| SkipLists.Iterator.SeekToFirst | ios/Pods/leveldb-library/db/skiplist.h:228-231 | the first node |
| SkipLists.Iterator.SeekToLast | ios/Pods/leveldb-library/db/skiplist.h:233-239 | the last node |
| MemTables.MemTable.Add | ios/Pods/leveldb-library/db/memtable.cc:75-98 | adds exactly the one entry |
| MemTables.MemTable.Get | ios/Pods/leveldb-library/db/memtable.cc:100-134 | found, deleted or not found as the newest visible entry says |
| Snapshots.SnapshotList.Oldest | ios/Pods/leveldb-library/db/snapshot.h:47-50 | no live snapshot has a smaller sequence number |
| Snapshots.SnapshotList.Newest | ios/Pods/leveldb-library/db/snapshot.h:51-54 | no live snapshot has a larger sequence number |
| Snapshots.SnapshotList.IsEmpty | ios/Pods/leveldb-library/db/snapshot.h:46 | true exactly when no snapshot is live |
| Snapshots.SnapshotList.New | ios/Pods/leveldb-library/db/snapshot.h:57-70 | appends one snapshot and keeps the circle linked both ways and ascending |
| Snapshots.SnapshotList.Delete | ios/Pods/leveldb-library/db/snapshot.h:79-86 | unlinks exactly that snapshot from anywhere in the circle |
| LogFormat.LayoutConcat | ios/Pods/leveldb-library/db/log_writer.cc:34-110 | fragments laid out one group after the other give the bytes of both, the second from where the first ended |
| LogFormat.KindNumbers | ios/Pods/leveldb-library/db/log_format.h:14-24 | a fragment that begins and ends its record has type 1, one that only begins it 2, one that does neither 3, one that only ends it 4 |
| LogFormat.PlacedBytes | ios/Pods/leveldb-library/db/log_writer.cc:34-110 | a fragment in bytes: zeros to the end of the block if less than 7 bytes are left, checksum, two length bytes with the low one first, type, payload |
| LogFormat.FirstBlock | ios/Pods/leveldb-library/db/log_writer.cc:34-79 | a record of up to 32761 bytes fills the first block of a log alone; a longer one has its first 32761 bytes there |
| LogWriter.Writer.EmitFragment | ios/Pods/leveldb-library/db/log_writer.cc:43-78 | one turn emits the next fragment of the record and makes progress, or uses up a block with an empty fragment, once |
| LogWriter.Writer.AddRecord | ios/Pods/leveldb-library/db/log_writer.cc:34-80 | terminates, and the file is then the log of the records so far plus this one, empty records included |
| LogReader.Reader.ParseRecord | ios/Pods/leveldb-library/db/log_reader.cc:216-269 | on any bytes: a header that points past the buffer, a checksum that does not match and a zero-type header drop the rest of the buffer, with a report in the cases the source reports; anything else is handed over whole. On a written log nothing is reported |
| LogReader.Reader.ReadPhysicalRecord | ios/Pods/leveldb-library/db/log_reader.cc:189-271 | the next written fragment or the end, across trailers; on any file a fragment of a record starts where the last read ended or at the next block, under a checksum that matches |
| LogReader.Reader.ReadRecord | ios/Pods/leveldb-library/db/log_reader.cc:56-174 | returns the next record exactly when its last fragment is wholly there, and stands right behind it; on any file, damaged or not, a record returned is one full fragment, or a first, middle ones and a last each right behind the one before |
| LogReader.ReadAll | ios/Pods/leveldb-library/db/log_reader.cc:56-174 | of any byte prefix of a log, exactly the whole records come back, in order, and no corruption is reported; on any file, only records assembled from fragments that lie right behind each other |
| LogCrash.ReadAfterCrash | ios/Pods/leveldb-library/db/log_reader.cc:56-174 | of a log with any part of one more record behind it, the records before or with that one are read, and no corruption is reported |
| Coding.VarintRoundTrip | ios/Pods/leveldb-library/util/coding.cc:47-169 | 32- and 64-bit varints read back to the number and stop right behind it |
| Coding.PutVarint32 | ios/Pods/leveldb-library/util/coding.cc:47-79 | the unrolled encoder writes the base-128 form |
| Coding.PutVarint64 | ios/Pods/leveldb-library/util/coding.cc:81-96 | the looping encoder writes the same form |
| Coding.GetVarint | ios/Pods/leveldb-library/util/coding.cc:112-157 | the bounded loop reads that form and rejects numbers that run too long or off the end |
| Coding.PrefixedRoundTrip | ios/Pods/leveldb-library/util/coding.cc:98-190 | a length-prefixed string reads back and stops right behind it |
| Coding.FixedRoundTrip | ios/Pods/leveldb-library/util/coding.cc:9-45 | little-endian numbers of any width read back |
| Coding.LittleEndian | ios/Pods/leveldb-library/util/coding.cc:9-45 | fixed-width numbers byte by byte, the low one first |
| VersionEdits.FieldRoundTrip | ios/Pods/leveldb-library/db/version_edit.cc:41-205 | each tagged field reads back as written and stops right behind it |
| VersionEdits.TaggedFields | ios/Pods/leveldb-library/db/version_edit.cc:14-24 | each field in bytes, with the tags 1 to 7 and 9 in numbers and the members in their order |
| VersionEdits.EditBytes | ios/Pods/leveldb-library/db/version_edit.cc:41-85 | an edit is its comparator, log number, previous log number, next file number and last sequence, where set, then pointers, deletions and additions |
| VersionEdits.ListBytes | ios/Pods/leveldb-library/db/version_edit.cc:63-84 | pointers, deletions and additions are written one behind the other in the order of their lists |
| VersionEdits.FieldsRoundTrip | ios/Pods/leveldb-library/db/version_edit.cc:107-205 | every list of fields reads back |
| VersionEdits.AcceptedFit | ios/Pods/leveldb-library/db/version_edit.cc:97-105 | whatever bytes an edit is decoded from, every level in it is below 7 and every number fits its type |
| VersionEdits.BadFieldFails | ios/Pods/leveldb-library/db/version_edit.cc:107-217 | a tag no field has, a level of 7 or more, or a tag cut short fails the whole edit |
| VersionEdits.FieldsRestore | ios/Pods/leveldb-library/db/version_edit.cc:107-205 | applying an edit's fields restores the edit, up to the pointers the target already held |
| VersionEdits.DecodeInvertsEncode | ios/Pods/leveldb-library/db/version_edit.cc:41-205 | decoding an encoded edit into a fresh one gives it back; into a used one, all but the leftover compaction pointers |
| VersionEdits.VersionEdit.EncodeTo | ios/Pods/leveldb-library/db/version_edit.cc:41-85 | appends the fields in the source's order, only those that are set |
| VersionEdits.VersionEdit.Clear | ios/Pods/leveldb-library/db/version_edit.cc:26-39 | resets everything but the compaction pointers |
| VersionEdits.VersionEdit.DecodeFrom | ios/Pods/leveldb-library/db/version_edit.cc:107-205 | succeeds exactly on well-formed fields and then holds what they say |
| Manifest.SortedListUnique | ios/Pods/leveldb-library/db/version_set.cc:594-606 | the level order leaves one arrangement of a set of files |
| Manifest.SaveLevel | ios/Pods/leveldb-library/db/version_set.cc:695-754 | the one-pass merge puts each added file behind the base files that are not after it and drops the deleted numbers, duplicates included |
| Manifest.Builder.Apply | ios/Pods/leveldb-library/db/version_set.cc:650-692 | any edit's deletions then its additions are gathered, the first file of a key wins, and an addition cancels an earlier deletion of its number |
| Manifest.Builder.SaveTo | ios/Pods/leveldb-library/db/version_set.cc:695-738 | every level of the new version is that merge of the base and what was gathered |
| Manifest.OnePassStep | ios/Pods/leveldb-library/db/version_set.cc:650-754 | one more edit leaves the replayed and the live list equal, if and only if it neither gives a deleted number to a different file nor adds a file the level already holds under the same smallest key and number |
| Manifest.OnePassIsLive | ios/Pods/leveldb-library/db/version_set.cc:926-991 | one builder over all edits gives the same lists as edit-by-edit application at every point, if and only if no edit does either |
| Manifest.RepeatedFileReplaysOnce | ios/Pods/leveldb-library/db/version_set.cc:690-738 | a file added twice is in the live list twice and replayed once |
| Manifest.ReusedNumberReplaysBoth | ios/Pods/leveldb-library/db/version_set.cc:650-692 | add, delete, and add another file under the same number: the replay lists both, the live level the second |
| Manifest.ApplyBothWays | ios/Pods/leveldb-library/db/version_set.cc:650-754 | the builder's own methods, run edit by edit and in one pass on any edits, give those two lists |
| Manifest.FreshInstalls | ios/Pods/leveldb-library/db/version_set.cc:650-738 | an edit whose files are new to the level leaves it strictly sorted, with exactly the files that are not deleted |
| Manifest.Snapshot | ios/Pods/leveldb-library/db/version_set.cc:1088-1116 | one edit that adds every file of the version and deletes none |
| Manifest.LevelStaysOnDisk | ios/Pods/leveldb-library/db/version_set.cc:801-884 | installing an edit with fresh numbers keeps the manifest an account of the level |
| Manifest.VersionSet.Descriptor | ios/Pods/leveldb-library/db/version_set.cc:824-839 | a new manifest starts with one snapshot of the current version; an old one is carried on |
| Manifest.VersionSet.LogAndApply | ios/Pods/leveldb-library/db/version_set.cc:801-884 | the new version is the old one with the edit; the manifest gains exactly one record, the edit completed with all four counters, behind what it held or behind a snapshot of the old version, and stays an account of it |
| Manifest.Gather | ios/Pods/leveldb-library/db/version_set.cc:926-962 | one builder gathers all records and the last of each counter |
| Manifest.VersionSet.Recover | ios/Pods/leveldb-library/db/version_set.cc:886-1011 | succeeds exactly when next file, log number and last sequence were recorded, and then holds the one-pass result and the recorded counters |
| Manifest.Reopen | ios/Pods/leveldb-library/db/version_set.cc:886-1011 | a fresh version set recovers the same sorted levels, log numbers and recorded counters as the one that wrote the manifest |
| Manifest.FlushEdit | ios/Pods/leveldb-library/db/db_impl.cc:491-566 | a flush logged as an edit installs the version the engine's flush step names |
| Manifest.CompactionEditReplaces | ios/Pods/leveldb-library/db/version_set.cc:1525-1531 | deleting the inputs and adding the outputs as an edit installs the version the engine's compaction step names |
| WriteBatches.VisitedRoundTrip | ios/Pods/leveldb-library/db/write_batch.cc:42-113 | iterating encoded operations yields them back, in order |
| WriteBatches.HoldsOne | ios/Pods/leveldb-library/db/write_batch.cc:42-80 | a batch's bytes determine its operations |
| WriteBatches.TypeByte | ios/Pods/leveldb-library/db/dbformat.h:52 | the first byte of a batch's operation is the type byte of its entry's internal key |
| WriteBatches.UnknownType | ios/Pods/leveldb-library/db/write_batch.cc:42-79 | any other type byte stops the iteration with an error |
| WriteBatches.WriteBatch.SetSequence | ios/Pods/leveldb-library/db/write_batch.cc:90-96 | replaces the first eight bytes and leaves count and operations alone |
| WriteBatches.WriteBatch.AddPut | ios/Pods/leveldb-library/db/write_batch.cc:98-103 | appends the bytes 01, key length, key, value length, value and adds one to the count |
| WriteBatches.WriteBatch.AddDelete | ios/Pods/leveldb-library/db/write_batch.cc:105-109 | appends the bytes 00, key length, key and adds one to the count |
| WriteBatches.WriteBatch.Append | ios/Pods/leveldb-library/db/write_batch.cc:144-148 | appends the other batch's bytes behind its header and adds the counts, keeping the sequence number |
| WriteBatches.WriteBatch.Iterate | ios/Pods/leveldb-library/db/write_batch.cc:42-80 | hands over the operations before the first damage and succeeds exactly when there is none and the count agrees |
| WriteBatches.WriteBatch.InsertInto | ios/Pods/leveldb-library/db/write_batch.cc:116-137 | the memtable gains each operation before the first damage with consecutive sequence numbers from the batch's own, and success means no damage and the right count |
| GroupCommit.BuildBatchGroup | ios/Pods/leveldb-library/db/db_impl.cc:1260-1306 | the longest prefix of the queue without a sync writer behind a non-sync leader and within 1 MB, or 128 KB more than the first batch when that has at most 128 KB |
| GroupCommit.GroupGranted | ios/Pods/leveldb-library/db/db_impl.cc:1205-1248 | finishing a group gives its writers contiguous ranges that together number its operations |
| GroupCommit.GroupDurable | ios/Pods/leveldb-library/db/db_impl.cc:1216-1248 | every sync writer of a finished group has its record synced before it is told |
| GroupCommit.NextKeepsInv | ios/Pods/leveldb-library/db/db_impl.cc:1185-1256 | arriving, leading, appending, failing, inserting one operation and finishing each keep the invariant |
| GroupCommit.InvIsSafe | ios/Pods/leveldb-library/db/db_impl.cc:1185-1256 | the invariant gives: the memtable is exactly the granted batches plus the inserted part of the group under way, and a reader at the last sequence sees whole groups only |
| GroupCommit.EveryRunIsSafe | ios/Pods/leveldb-library/db/db_impl.cc:1185-1256 | in every run each batch is applied at most once, in queue order, on ascending ranges, visible only when its group is complete, and synced first if it asked |
| BlockFormat.ItemRoundTrip | ios/Pods/leveldb-library/table/block_builder.cc:92-99 | an entry's bytes parse back to its three lengths, with its key suffix and value right behind |
| BlockFormat.ItemLayout | ios/Pods/leveldb-library/table/block_builder.cc:84-104 | an entry in bytes: shared length, unshared length, value length, rest of the key, value |
| BlockFormat.DataAt | ios/Pods/leveldb-library/table/block_builder.cc:72-104 | entry i stands at its offset, followed by the rest |
| BlockFormat.DecodeEntry | ios/Pods/leveldb-library/table/block.cc:54-77 | the one-byte fast path and the varint path accept the same entries, exactly those whose header parses and whose lengths' 32-bit sum fits behind it; says when the body itself does not fit |
| BlockFormat.RunsOverIffWraps | ios/Pods/leveldb-library/table/block.cc:72-74 | the body of an accepted entry lies within the block if and only if the two lengths sum to less than 2^32 |
| BlockFormat.WrappedEntryAccepted | ios/Pods/leveldb-library/table/block.cc:72-74 | eight bytes whose entry is accepted with a key of 2^32 - 1 bytes |
| BlockBuilders.BlockBuilder.Reset | ios/Pods/leveldb-library/table/block_builder.cc:47-53 | back to an empty block |
| BlockBuilders.BlockBuilder.Add | ios/Pods/leveldb-library/table/block_builder.cc:72-104 | appends the entry; shares the longest prefix with the last key, or starts anew every interval entries |
| BlockBuilders.BlockBuilder.Finish | ios/Pods/leveldb-library/table/block_builder.cc:62-70 | the bytes are a block of exactly the added entries and restart points |
| BlockIterators.RestartRead | ios/Pods/leveldb-library/table/block.cc:99-102 | a restart word read back is the offset of an entry that shares nothing |
| BlockIterators.EntryRead | ios/Pods/leveldb-library/table/block.cc:224-251 | at each entry's offset the parse yields that entry and ends at the next one's offset |
| BlockIterators.EntryDecoded | ios/Pods/leveldb-library/table/block.cc:224-251 | with the previous key at hand, the shared prefix and the suffix rebuild the key |
| BlockIterators.NewIterator | ios/Pods/leveldb-library/table/block.cc:24-264 | opens finished blocks; an error exactly when there is no room for the restart count or for as many restarts, an empty iterator exactly for a count of zero, otherwise a cursor that stays contained |
| BlockIterators.BlockIter.SeekToRestartPoint | ios/Pods/leveldb-library/table/block.cc:104-113 | stands before the entry of that restart point |
| BlockIterators.BlockIter.ParseNextKey | ios/Pods/leveldb-library/table/block.cc:224-251 | moves to the next entry with its key and value, off the end only there; on damaged bytes becomes invalid, and leaves the block exactly at an accepted entry that does not fit |
| BlockIterators.BlockIter.SafeWithoutWraps | ios/Pods/leveldb-library/table/block.cc:137-251 | over any bytes in which no accepted entry's lengths wrap around, the cursor never leaves the block |
| BlockIterators.BlockIter.SeekToFirst | ios/Pods/leveldb-library/table/block.cc:203-206 | the first entry |
| BlockIterators.BlockIter.SeekToLast | ios/Pods/leveldb-library/table/block.cc:208-213 | the last entry |
| BlockIterators.BlockIter.Next | ios/Pods/leveldb-library/table/block.cc:137-140 | one entry on |
| BlockIterators.BlockIter.Prev | ios/Pods/leveldb-library/table/block.cc:142-161 | one entry back, so Prev undoes Next; off the block from the first |
| BlockIterators.BlockIter.Seek | ios/Pods/leveldb-library/table/block.cc:163-201 | the first entry at or after the target under any key ranking the entries ascend in |
| BlockIterators.Write | ios/Pods/leveldb-library/table/block_builder.cc:62-104 | any list of entries with any interval makes a block of exactly those entries |
| BlockIterators.ReadBack | ios/Pods/leveldb-library/table/block.cc:203-251 | iterating the finished bytes yields the list back |
| FilterBlocks.FilterSlice | ios/Pods/leveldb-library/table/filter_block.cc:51-104 | the offsets in the block cut out, for each range of file offsets, exactly the filter of its keys |
| FilterBlocks.FilterBlockBuilder.StartBlock | ios/Pods/leveldb-library/table/filter_block.cc:21-27 | makes filters until there is one for each 2 KB before the block; pending keys go to the first of them and the others are empty |
| FilterBlocks.FilterBlockBuilder.AddKey | ios/Pods/leveldb-library/table/filter_block.cc:29-33 | the key joins the pending ones |
| FilterBlocks.FilterBlockBuilder.GenerateFilter | ios/Pods/leveldb-library/table/filter_block.cc:51-75 | one filter over exactly the pending keys |
| FilterBlocks.FilterBlockBuilder.Finish | ios/Pods/leveldb-library/table/filter_block.cc:35-49 | the filter block of all groups, the pending keys included |
| FilterBlocks.FilterBlockReader.constructor | ios/Pods/leveldb-library/table/filter_block.cc:77-88 | any contents can be opened; too short or inconsistent ones match everything |
| FilterBlocks.FilterBlockReader.KeyMayMatch | ios/Pods/leveldb-library/table/filter_block.cc:90-104 | on a written filter block, exactly what the policy says of the filter for the block's 2 KB, and true beyond the last; true on contents without a readable trailer |
| Separators.BytesTotal | ios/Pods/leveldb-library/util/comparator.cc:25-27 | bytewise order is total |
| Separators.BytesTransitive | ios/Pods/leveldb-library/util/comparator.cc:25-27 | bytewise order is transitive |
| Separators.FindShortestSeparator | ios/Pods/leveldb-library/util/comparator.cc:29-50 | for start < limit, a string in [start, limit) no longer than start; it differs from start exactly when the byte where the two part has room, and is then the shortest string strictly between them and the least of its length |
| Separators.FindShortSuccessor | ios/Pods/leveldb-library/util/comparator.cc:52-64 | the key itself exactly when it is all 0xff; otherwise the shortest string after it, and the least of its length |
| Separators.InternalSeparatorBetween | ios/Pods/leveldb-library/db/dbformat.cc:69-86 | between the last key of a block and the first of the next; a new user key exactly when it is shorter and larger, strictly between the two and tagged with the highest sequence number |
| Separators.InternalSuccessorAfter | ios/Pods/leveldb-library/db/dbformat.cc:88-101 | at or after the key; a new user key exactly when it is shorter and larger, tagged with the highest sequence number |
| Tables.TableBuilder.Add | ios/Pods/leveldb-library/table/table_builder.cc:94-123 | adds the entry and writes the block out exactly when it is full, keeping index, blocks and filter in step |
| Tables.TableBuilder.AddToBlock | ios/Pods/leveldb-library/table/table_builder.cc:94-117 | settles the pending index entry with a separator of the last key and this one, then adds the entry to the open block and the filter |
| Tables.TableBuilder.Flush | ios/Pods/leveldb-library/table/table_builder.cc:125-139 | the block is stored at the offset, which moves past it and its 5-byte trailer, its index entry pending; an empty block changes nothing |
| Tables.TableBuilder.Finish | ios/Pods/leveldb-library/table/table_builder.cc:198-253 | the table's blocks are the written ones and what was open, and concatenate to the entries added; the last index key is the successor of the last key; the index separates the blocks and the filter knows every user key |
| Tables.SeekIndex | ios/Pods/leveldb-library/table/table.cc:220-222 | the first index entry at or after the key |
| Tables.FirstIsInBlock | ios/Pods/leveldb-library/table/table.cc:216-244 | if the table's first entry at or after the key has its user key, it is in the one block the index names |
| Tables.FilterDenies | ios/Pods/leveldb-library/table/table.cc:224-228 | a block the filter denies holds no entry of the user key |
| Tables.InternalGet | ios/Pods/leveldb-library/table/table.cc:216-244 | opening at most the block the index names, and not if the filter denies the user key, returns an entry exactly when that block has one at or after the key, and it is the table's first; whenever that first entry has the sought user key it is found |
| TwoLevelIterators.TableIsSearchable | ios/Pods/leveldb-library/table/two_level_iterator.cc:82-87 | tables written by the builder are what the two-level iterator needs |
| TwoLevelIterators.TwoLevelIterator.InitDataBlock | ios/Pods/leveldb-library/table/two_level_iterator.cc:146-161 | the block the index points to is open, and not opened again if it was |
| TwoLevelIterators.TwoLevelIterator.SkipEmptyDataBlocksForward | ios/Pods/leveldb-library/table/two_level_iterator.cc:115-126 | skipping empty and used-up blocks forward keeps the position |
| TwoLevelIterators.TwoLevelIterator.SkipEmptyDataBlocksBackward | ios/Pods/leveldb-library/table/two_level_iterator.cc:128-139 | skipping back lands on the entry before the position |
| TwoLevelIterators.TwoLevelIterator.Seek | ios/Pods/leveldb-library/table/two_level_iterator.cc:82-87 | the first entry of the whole table at or after the target |
| TwoLevelIterators.TwoLevelIterator.SeekToFirst | ios/Pods/leveldb-library/table/two_level_iterator.cc:89-94 | the first entry of the whole table |
| TwoLevelIterators.TwoLevelIterator.SeekToLast | ios/Pods/leveldb-library/table/two_level_iterator.cc:96-101 | the last entry of the whole table |
| TwoLevelIterators.TwoLevelIterator.Next | ios/Pods/leveldb-library/table/two_level_iterator.cc:103-107 | one entry on, across blocks |
| TwoLevelIterators.TwoLevelIterator.Prev | ios/Pods/leveldb-library/table/two_level_iterator.cc:109-113 | one entry back, across blocks; off the table from the first |
| TwoLevelIterators.TwoLevelIterator.ShowsPosition | ios/Pods/leveldb-library/table/two_level_iterator.cc:30-41 | valid exactly inside the table, and then shows the entry at its position in the concatenated blocks |
| IteratorStack.CallTwoLevel | ios/Pods/leveldb-library/table/two_level_iterator.cc:82-139 | any one call (Next and Prev only while valid) moves the two-level iterator as a plain cursor over the concatenated blocks moves |
| IteratorStack.DriveTwoLevel | ios/Pods/leveldb-library/table/two_level_iterator.cc:82-161 | after any list of calls, across blocks and empty ones, it is valid exactly when that plain cursor is, and shows the same entry |
| PbFormat.ZigZagInverse | ios/Pods/nanopb/pb_encode.c:629-639 | zigzag on 64 bits has an inverse on the whole range |
| PbFormat.ZigZagBits | ios/Pods/nanopb/pb_encode.c:629-639 | the arithmetic form is the source's shift and complement |
| PbEncode.OStream.Write | ios/Pods/nanopb/pb_encode.c:103-124 | counts in a sizing stream; in a writing stream appends, or fails exactly when there is no room |
| PbEncode.OStream.EncodeVarint | ios/Pods/nanopb/pb_encode.c:608-627 | puts out the base-128 form, with room for it |
| PbEncode.OStream.EncodeTag | ios/Pods/nanopb/pb_encode.c:669-707 | puts out field number and wire type as one varint |
| PbEncode.OStream.EncodeString | ios/Pods/nanopb/pb_encode.c:709-715 | puts out length and bytes |
| PbEncode.EncodeValue | ios/Pods/nanopb/pb_encode.c:769-910 | every value encoder puts out the value's bytes, the same in both passes |
| PbEncode.EncodeSubmessage | ios/Pods/nanopb/pb_encode.c:717-765 | length from a counting pass, then exactly that many bytes: the "size changed" error never occurs |
| PbEncode.EncodeArray | ios/Pods/nanopb/pb_encode.c:147-236 | packed numbers behind one tag and a length that is right; anything else tagged one by one |
| PbEncode.EncodeField | ios/Pods/nanopb/pb_encode.c:341-426 | required always, optional when present, repeated by count |
| PbEncode.Encode | ios/Pods/nanopb/pb_encode.c:528-550 | puts out exactly the message's bytes in descriptor order, in both passes, or fails for want of room or of a codable value |
| PbEncode.GetEncodedSize | ios/Pods/nanopb/pb_encode.c:567-576 | the size is the number of bytes a successful write puts out |
| PbWire.WireTypes | ios/Pods/nanopb/pb_encode.c:675-707 | the wire type of each kind of field as a number |
| PbWire.NumberField | ios/Pods/nanopb/pb_encode.c:769-859 | a number alone in its field: the key, then the bytes its type is written as |
| PbWire.BytesField | ios/Pods/nanopb/pb_encode.c:861-910 | bytes alone in their field: key, length and bytes, or a failure when a bytes member is over its size |
| PbWire.PackedField | ios/Pods/nanopb/pb_encode.c:147-206 | a packed array: one key, its length in bytes, the numbers; a count over the array fails |
| PbWire.FieldsInOrder | ios/Pods/nanopb/pb_encode.c:528-550 | a message is its fields in descriptor order |
| PbFields.SubmessageField | ios/Pods/nanopb/pb_encode.c:717-765 | a submessage alone in its field: key, length and its own bytes |
| PbFields.ItemField | ios/Pods/nanopb/pb_encode.c:207-236 | strings, bytes and submessages of an array come one behind the other, each with its own key |
| PbDecode.UInt32RoundTrip | ios/Pods/nanopb/pb_decode.c:187-247 | the 32-bit reader takes back every 32-bit varint |
| PbDecode.RightIffNoBitsAdded | ios/Pods/nanopb/pb_decode.c:187-247 | an accepted varint is read as its number in 32 bits if and only if no byte past the first 37 sets a bit that number does not have |
| PbDecode.AllRightIffShort | ios/Pods/nanopb/pb_decode.c:187-247 | every accepted varint of n bytes is read right if and only if n is at most 37 |
| PbDecode.LongVarint32Misread | ios/Pods/nanopb/pb_decode.c:209-240 | for every length from 38 bytes on, bytes that are accepted as 8 though they stand for a multiple of 2^32 |
| PbDecode.FreshDigit | ios/Pods/nanopb/pb_decode.c:229-234 | in the first five bytes the bitwise or adds a digit in its place |
| PbDecode.VarintValueInverse | ios/Pods/nanopb/pb_decode.c:1345-1404 | negative numbers of every width come back from 64-bit two's complement with their sign |
| PbDecode.NumberRoundTrip | ios/Pods/nanopb/pb_decode.c:1334-1445 | every numeric value comes back from its encoding, which ends where it ends |
| PbDecode.ValueRoundTrip | ios/Pods/nanopb/pb_decode.c:1334-1570 | every value, strings, bytes and submessages included, comes back from its encoding |
| PbDecode.TaggedRead | ios/Pods/nanopb/pb_decode.c:406-484 | an optional field's or an array's tagged items are gathered back in order |
| PbDecode.PackedRead | ios/Pods/nanopb/pb_decode.c:425-453 | a packed array's numbers are gathered back in order |
| PbDecode.FieldsRead | ios/Pods/nanopb/pb_decode.c:934-1082 | reading the first n encoded fields into a default message leaves those fields set, the rest default, and their required ones seen |
| PbDecode.MessageRoundTrip | ios/Pods/nanopb/pb_decode.c:1084-1096 | decoding an encoded message gives it back, to any depth of nesting |
| PbDecode.MessageFails | ios/Pods/nanopb/pb_decode.c:1487-1523 | a string that leaves no room for its terminator, at any depth, makes decoding fail |
| PbDecode.RoundTripIffTerminated | ios/Pods/nanopb/pb_decode.c:1084-1096 | the round trip holds if and only if every string leaves room for its terminator |
| PbWire.UnknownFieldSkipped | ios/Pods/nanopb/pb_decode.c:278-331 | a field whose number the message does not have leaves it alone: a number of any length, eight bytes, four bytes, or a length and that many bytes, by its wire type |
| PbWire.UnknownFieldFails | ios/Pods/nanopb/pb_decode.c:321-331 | another wire type, or too few bytes for a fixed one, makes decoding fail |
| PbWire.ZeroEnds | ios/Pods/nanopb/pb_decode.c:298-319 | a zero byte where a key is due ends the message |
| PbWire.EmptyIffNothingRequired | ios/Pods/nanopb/pb_decode.c:1041-1078 | empty input decodes exactly when no field is required |
| PbFields.KnownField | ios/Pods/nanopb/pb_decode.c:977-1037 | a field of the message, by its key alone and from any place: its decoder runs on what follows, only its member changes, and it counts as seen exactly if required |
| PbFields.RequiredMeans | ios/Pods/nanopb/pb_decode.c:1041-1078 | decoding succeeds exactly when every field is read and each of the first 64 required ones came |
| PbFields.VarintStored | ios/Pods/nanopb/pb_decode.c:1345-1428 | a varint becomes the one number of the member that stands for it: itself if unsigned, the one equal modulo 2^32 (2^64 for 8 bytes) if signed, the one whose zigzag form it is; refused exactly when there is none |
| PbFields.OtherNumbersStored | ios/Pods/nanopb/pb_decode.c:1334-1445 | a bool is true for any number but 0; fixed-width numbers are little-endian and need all their bytes |
| PbFields.BytesStored | ios/Pods/nanopb/pb_decode.c:1447-1570 | bytes are taken exactly if they fit, a string exactly if its terminator fits and then up to its first zero byte, fixed-length bytes exactly if they have that length or none, which stands for zeros |
| PbFields.SubmessageStored | ios/Pods/nanopb/pb_decode.c:1525-1547 | a submessage is decoded into what its member holds |
| PbFields.CutShort | ios/Pods/nanopb/pb_decode.c:372-385 | bytes that end before the length they announce are refused |
| PbFields.SingleField | ios/Pods/nanopb/pb_decode.c:414-423 | a required or optional field that comes again is decoded over what it held |
| PbFields.ItemAppended | ios/Pods/nanopb/pb_decode.c:455-466 | an array takes single items, in any wire type but a packed one, exactly while it has room |
| PbFields.ChunkAppended | ios/Pods/nanopb/pb_decode.c:425-453 | a packed chunk's numbers join those the array holds, and it fails exactly when they do not all fit |
| PbWire.ValueFits | ios/Pods/nanopb/pb_decode.c:1334-1570 | whatever the bytes, a value that is accepted lies within its member |
| PbWire.DecodedFits | ios/Pods/nanopb/pb_decode.c:1084-1096 | whatever the bytes, decoding stores nothing outside the members of the message, at any depth |
| PbDecoder.IStream.DecodeVarint32 | ios/Pods/nanopb/pb_decode.c:187-252 | the looping reader, with its overflow tests and its 8-bit position, accepts and yields exactly what the 32-bit reading says |
| PbDecoder.IStream.DecodeVarint | ios/Pods/nanopb/pb_decode.c:255-275 | the same for at most ten bytes and 64 bits |
| PbDecoder.IStream.MakeSubstream | ios/Pods/nanopb/pb_decode.c:372-385 | a substream of exactly the announced bytes, the parent behind it; fails when they are not there |
| PbDecoder.IStream.Skip | ios/Pods/nanopb/pb_decode.c:278-331 | skips exactly one value of the wire type, eight bytes for 1 and four for 5, or fails, as it does for any type but 0, 1, 2 and 5 |
| PbDecoder.FieldIter.Next | ios/Pods/nanopb/pb_common.c:29-85 | the next field, or back to the first and false |
| PbDecoder.FieldIter.Find | ios/Pods/nanopb/pb_common.c:87-104 | finds the field with the tag from anywhere, wrapping around; stays where it was exactly when there is none |
| PbDecoder.CheckBits | ios/Pods/nanopb/pb_decode.c:1060-1078 | the word-wise test holds exactly when every bit below the count is set |
| PbDecoder.MirroredCheck | ios/Pods/nanopb/pb_decode.c:1057-1078 | those bits are all set exactly when each of the first 64 required fields was seen |
| PbDecoder.CountRequired | ios/Pods/nanopb/pb_decode.c:1041-1055 | going once around from any field counts all required fields |
| PbDecoder.DecodeValue | ios/Pods/nanopb/pb_decode.c:1334-1570 | the value decoders accept and yield exactly what the reading says |
| PbDecoder.DecodePacked | ios/Pods/nanopb/pb_decode.c:425-453 | fills the array from the substream, failing on overflow of the array or a torn value |
| PbDecoder.DecodeStaticField | ios/Pods/nanopb/pb_decode.c:406-484 | one field by wire type: overwrite, set, append or unpack, with the array's bound |
| PbDecoder.DecodeNoInit | ios/Pods/nanopb/pb_decode.c:934-1082 | the loop with iterator and bitmap succeeds exactly when the reading does, so only if each of the first 64 required fields was seen, and leaves the same message |
| PbDecoder.DecodeMessage | ios/Pods/nanopb/pb_decode.c:1084-1096 | decoding after setting defaults is the same reading from the default message |
| PbDecoder.Transmit | ios/Pods/nanopb/pb_decode.c:1084-1096 | encoding into a buffer succeeds exactly when the bytes fit, and decoding them then returns the message exactly when its strings leave room for terminators |

## Left out

- CompactionWork.DoCompactionWork: where outputs are cut follows arbitrary answers of `ShouldStopBefore` and of the output size, which are not computed, and the flush of an immutable memtable in the middle of a compaction is not modelled.
- EngineReads.UnsplitKeysReadTheirHistory: user keys that some compaction has split may read a deleted value; what still holds of them is `EngineReads.EveryRunKeepsPresentValues`.
- Recovery.Recover: a crash while recovery itself runs leaves the same disk but for unnamed tables, and is not a step of its own; `PrevLogNumber` is always 0 here.
- LogReader.Reader.ReadRecord: states which records come back for prefixes of written logs; for other files that every record returned is put together from adjacent fragments, not which ones are found behind damage or how often it is reported. `initial_offset > 0` and `last_record_offset` are not modelled.
- BlockIterators.BlockIter.Seek: on damaged blocks only that the cursor stays within the block or has met a wrapped entry is stated; what the code does past the block is undefined.
- BlockIterators.NewIterator: blocks of 2^32 bytes or more, whose offsets the source truncates, are not modelled.
- GroupCommit.NextKeepsInv: a failed append leaves nothing in the log; bytes it may leave in the file, and what is read behind them, are not modelled. The writer queue, the engine's log of batches, and the bytes of the log are separate modules, joined only by what a crash during an append leaves (`LogCrash.ReadAfterCrash`).
- Manifest.VersionSet.LogAndApply: the MANIFEST records carry files with their entries and no compaction pointers; the byte format of records is the separate module `VersionEdits`, and the CURRENT file and the comparator-name check are not modelled.
- PbDecoder.DecodeNoInit: an optional member or array item that was absent starts from its default value; decoding into a struct that was never set to defaults merges into its stale bytes in the source.
- PbEncode.Encode: sizes are unbounded, so wrap-around of `size_t` and the 16-bit `PB_SIZE_MAX` are not modelled.
- PbDecode.RoundTripIffTerminated: encodings of 2^32 bytes or more are out of scope, since lengths are read with 32 bits.
- PbDecoder.FieldIter.Next: the data offsets (`pData`, `pSize`) are replaced by the message value.
- PbDecoder.FieldIter.Find: the end of the descriptor is a sequence length here and an entry with field number 0 in the source. For a message without fields the source's iterator stands on that entry, so a tag with field number 0 is found there and read as a required bool (the bytes `01 01` decode), while the model skips eight bytes for wire type 1 and fails.
- SkipLists.SkipList.Insert: heights are arbitrary in 1..12 and stores are sequentially consistent.
- MemTables.MemTable.Add: entries are values; their byte layout in the arena is not modelled.
- Level scores, seek-triggered compactions, read sampling and write throttling: they decide when work happens, not what it yields.
- Keys that do not parse as internal keys: corrupt tables are not modelled above the block.
- `reuse_logs`, `ReuseManifest` and `repair.cc`.
- The file system, `Env`, locks, the table and block caches, iterator caches, CRC32C and Snappy.
- Block handles, the footer and the metaindex: a table is its blocks, index and filter.
- nanopb callbacks, extensions, pointer fields, oneofs, fixed-count arrays, proto3 fields without a presence flag, and declared default values.
- The application's other vendored code: PhoneNumberKit, SwiftyGif, DKPhotoGallery, BoringSSL and the Flutter runners.
