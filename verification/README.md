# LevelDB and nanopb, modelled and proved

The repository vendors LevelDB, an LSM-tree key-value store: writes go to a log and a memtable, memtables are
flushed to sorted tables, tables live in seven levels and are merged by background compactions, and the set of
live tables is recorded in a manifest. A user sees a map with snapshots. This project models that machinery and
proves that the user is right.

The reference is small. A database is a collection of entries, and a read of a key at a snapshot returns the newest
entry of the key whose sequence number does not exceed the snapshot (`SnapshotReads`). Everything else is related
to it:

- **Whole runs.** `Durability` is a state machine over disk and memory: group logging, memtable switch, flush,
  compaction, manifest append, installation, file deletion, snapshots, crash at any point, recovery, crash during
  recovery. `Runs` holds the top theorems over all its runs: reads match the write history, acknowledged writes
  survive, a snapshot is what was current when it was taken and stays so, the level invariant holds, a crash loses
  nothing. `Operations` has the user's side: the map that Put sets and Delete removes from. `CommitPath.UsersReadTheMap`
  and `UserCursors.CursorWalksTheMap` say that reads and cursors show exactly this map, in every state of every run.
- **Compaction.** `Selection` chooses inputs, `Compaction` runs the merge loop with its stateful drop tests,
  `LevelChanges` installs results, and `CompactionReads` says exactly when reads are preserved. They are not always:
  see below.
- **Manifest.** `Manifest` and `ManifestGrowth`: replaying snapshot and edits in one batch rebuilds the current
  version, over any growth of the manifest. `VersionEditCodec` is the byte format of its records.
- **Lookups and cursors.** `Versions`, `Database`, `Table`: point reads through memtables, levels, index blocks and
  filters. `DbIterator`, `MergingIterator`, `TwoLevelIterator`: the cursors refine a plain list cursor under
  any mix of moves.
  `Cursors` puts them together: over any run, the user cursor walks exactly what the writes up to its snapshot say.
- **Concurrency.** `SkipList`, `SkipListReaders`: insertion one published pointer at a time beside lock-free readers.
  `WriteQueue`: group commit over every interleaving of writers; `CommitPath` ties it to the durable runs: what a finished
  writer wrote is in the map every later reader sees.
- **Bytes.** `LogWriter` and `LogReader`: from any byte prefix of a log exactly the whole records come back.
  `BlockBuilder` and `BlockReader`: prefix-compressed blocks as a cursor. `WriteBatch`, `Coding`, `Crc32c`. `Formats`
  spells the formats out byte by byte.
- **Protocol buffers.** The repository also vendors nanopb. `NanopbEncoder` and `NanopbDecoder` are its schema-driven
  codec (the wire format is that of the "Encoding" guide of Protocol Buffers). `NanopbWire` is the reference for the
  decoder: what any well-formed fields mean, in any order and number and with fields of other schemas between them.
  `NanopbRoundTrip` has the theorem that a message comes back equal, with its exact condition, and `NanopbOlderReader`
  that an older schema reads what a newer one wrote.
- **Cache.** `HandleTable` and `LruCache`: the chained table refines a finite map through every resize, each entry is
  on the list its reference count says, no entry in use is freed, and what is evicted has been idle the longest.

Objects whose methods update fields are classes with those fields, and loops are loops; each is proved against the
pure functions and predicates beside it.

## Where the code falls short

- `SetupOtherInputs` closes the level-L inputs of a compaction under shared boundary user keys
  (`Arts_Explorer/Pods/leveldb-library/db/version_set.cc:1407`) but not the level L+1 inputs (line 1410). A deletion
  marker in a chosen L+1 file can then be dropped while an older value of its key stays in the L+1 file next to it,
  and the deleted key becomes readable. `CompactionReads.DeletedKeyComesBack` gives such a version and what is installed;
  `CompactionReads.CompactionIsCorrect` gives the exact condition (no exposed marker), and
  `CompactionReads.ClosedInputsExposeNothing` shows that closing the L+1 inputs suffices.
- A memtable flush inside the compaction loop (`Arts_Explorer/Pods/leveldb-library/db/db_impl.cc:908-918`) picks its level
  by the current version, which does not show the compaction's outputs. When the level-L inputs leave a gap, as those
  of a manual compaction may, a table flushed into the gap at the output level can overlap the output.
  `NestedFlush.FlushIntoGap` gives a case that the code reaches. `NestedFlush.NestedFlushIff` gives the exact condition,
  which can be tested when the flush picks its level: a table flushed to the output level must not overlap the user key
  range of the level-L inputs. `NestedFlush.OneInputIsSafe`: one level-L input leaves no gap.
- nanopb's encoder accepts a string that fills its array without a null
  (`Arts_Explorer/Pods/nanopb/pb_encode.c:875-899`), its decoder refuses it
  (`Arts_Explorer/Pods/nanopb/pb_decode.c:1491-1512`). `NanopbRoundTrip.ThroughBuffer` gives the exact condition.

One thing looks like a fault and is none: `VersionEdit::Clear` keeps the compaction pointers
(`Arts_Explorer/Pods/leveldb-library/db/version_edit.cc:25-39`), so an edit decoded into twice keeps the pointers of the
first record (`VersionEditCodec.PointerIsLeftOver`). Every caller in the repository decodes into a new edit, and then the
edit comes back equal (`VersionEditCodec.Reread`).

## Assumptions

- User keys in the storage engine are modelled by their rank under the user comparator, a real number: a total order
  on a countable set embeds in the reals. For the bytewise comparator the embedding is `Operations.Rank`, shown to keep
  the order by `Operations.RankEmbeds`. The table, block and log modules work on byte strings.
- Files carry their entries. A table file is a non-empty sorted list of entries with a number, and its encoded size is
  a parameter; the byte format of tables is modelled separately in the block modules.
- A run of the state machine has no I/O errors, and a log record torn by a crash counts as never logged, which
  `LogReader.ReadAll` justifies. The options are the defaults in one respect: logs and manifests are not reused
  (`reuse_logs` is false), so `prev_log_number` stays 0. Recovery may cut the replayed logs into tables at any
  group of writes.
- A compaction in a run exposes no marker (see above), and its smallest snapshot is below the greatest sequence number.
- In a run of the state machine a compaction is atomic with respect to memtable flushes; what a flush nested in the
  compaction loop does to the levels is in `NestedFlush`.
- Background file deletion happens while the background thread rests.
- nanopb is configured with 32-bit sizes (`PB_FIELD_32BIT`, which the generated schemas demand). A schema is what the
  generator makes: distinct field numbers from 1 to 2^29 - 1, arrays that can hold an empty string, no default value
  for a field without presence. An encoded message is shorter than 2^32 bytes, since the decoder reads lengths
  as 32-bit numbers.
- The one-byte step of CRC-32C (section 12.1 of RFC 3720), the bloom hash and the encoded size of a data block are
  arbitrary functions.

## Model

| member | source | states |
|---|---|---|
| `SnapshotReads.NewestOnTop` | Arts_Explorer/Pods/leveldb-library/db/db_impl.cc:1124-1134 | layering newer entries on older ones: the newest visible entry of the union is the newer layer's if it has one, else the older layer's, for every key and snapshot |
| `SnapshotReads.SameReadsUnderNewer` | Arts_Explorer/Pods/leveldb-library/db/db_impl.cc:1124-1134 | two collections that answer alike from a snapshot on still do when the same newer entries are put on top |
| `Versions.FindFile` | Arts_Explorer/Pods/leveldb-library/db/version_set.cc:88-106 | binary search returns the first file of a sorted level whose largest key is not before the target |
| `Versions.SomeFileOverlapsRange` | Arts_Explorer/Pods/leveldb-library/db/version_set.cc:122-156 | true exactly when some file of the level (sorted or not) holds a user key range meeting the given one, open ends included |
| `Versions.OverlappingNewestFirst` | Arts_Explorer/Pods/leveldb-library/db/version_set.cc:282-305 | collects exactly the level-0 files whose range covers the key, sorted newest file number first |
| `Versions.FilesToSearch` | Arts_Explorer/Pods/leveldb-library/db/version_set.cc:343-382 | the files searched in one level: nothing left out can hold a visible entry newer than what is searched |
| `Versions.HitIsNewest` | Arts_Explorer/Pods/leveldb-library/db/version_set.cc:339-421 | under the level invariant a hit in the first level that has one is the newest visible entry of the whole version |
| `Versions.SeekFindsNewest` | Arts_Explorer/Pods/leveldb-library/db/version_set.cc:263-276 | in a sorted run the entry at the lookup key's lower bound is the newest visible one of its user key, if it is of that user key at all |
| `Versions.Get` | Arts_Explorer/Pods/leveldb-library/db/version_set.cc:326-421 | level 0 newest first, then one binary-searched file per deeper level, returns the reference read of all entries of the version, for every key and snapshot |
| `Versions.ContentsDistinct` | Arts_Explorer/Pods/leveldb-library/db/version_set.cc:326-421 | a version under the level invariant never holds two entries of one user key and sequence number |
| `Database.MemTableGet` | Arts_Explorer/Pods/leveldb-library/db/memtable.cc:100-134 | the memtable lookup finds something exactly when a visible entry exists, and answers the reference read |
| `Database.Get` | Arts_Explorer/Pods/leveldb-library/db/db_impl.cc:1100-1145 | memtable, then immutable memtable, then version: the reference read of everything together |
| `Selection.GetOverlappingInputs` | Arts_Explorer/Pods/leveldb-library/db/version_set.cc:519-559 | terminates and returns exactly the files overlapping the range; at level 0 the least range that contains the given one and is closed under overlap |
| `Selection.ClosedRangesHold` | Arts_Explorer/Pods/leveldb-library/db/version_set.cc:519-559 | a widening by a file that meets the range stays inside every closed range around the given one, so the fixpoint is the least closed range |
| `Selection.PickLevelForMemTableOutput` | Arts_Explorer/Pods/leveldb-library/db/version_set.cc:491-516 | chooses a level that is safe: no overlap down to and including it, at most level 2, with the grandparent limit deciding how deep |
| `Selection.FindLargestKey` | Arts_Explorer/Pods/leveldb-library/db/version_set.cc:1326-1338 | the largest internal key of a non-empty file list |
| `Selection.FindSmallestBoundaryFile` | Arts_Explorer/Pods/leveldb-library/db/version_set.cc:1344-1362 | the file that continues the user key of the given largest key with the smallest first key, or none exactly when no file continues it |
| `Selection.AddBoundaryInputs` | Arts_Explorer/Pods/leveldb-library/db/version_set.cc:1378-1401 | terminates and adds files, each the first of the level that continues the last user key so far, until no file left in the level continues it; on a slice of a sorted level the result is again a slice |
| `Selection.GetRange` | Arts_Explorer/Pods/leveldb-library/db/version_set.cc:1205-1225 | the least range covering the files |
| `Selection.ExpandedInputs` | Arts_Explorer/Pods/leveldb-library/db/version_set.cc:1419-1423 | the level-L files meeting the range of all inputs, at level 0 of the least closed range around it, with their boundary files: no input is lost and what stays behind is newer |
| `Selection.GrownInputs` | Arts_Explorer/Pods/leveldb-library/db/version_set.cc:1419-1440 | the expanded level-L files if and only if they are more, the sizes stay below the limit and they meet as many level L+1 files; the L+1 inputs are then exactly as they were, and the inputs valid |
| `Selection.SetupOtherInputs` | Arts_Explorer/Pods/leveldb-library/db/version_set.cc:1403-1447 | the files picked with their boundary files, grown exactly when that pays; what stays in level L is newer than the inputs per user key, and the L+1 inputs are the overlapping ones |
| `Selection.PickCompaction` | Arts_Explorer/Pods/leveldb-library/db/version_set.cc:1270-1322 | from the chosen file alone, with the least closed range around it at level 0, come valid inputs as SetupOtherInputs makes them |
| `Selection.CompactRange` | Arts_Explorer/Pods/leveldb-library/db/version_set.cc:1464-1495 | none exactly when nothing meets the range; otherwise valid inputs from the files meeting it, above level 0 from the shortest beginning of these that reaches the size limit, as SetupOtherInputs makes them |
| `Selection.CutAtLimit` | Arts_Explorer/Pods/leveldb-library/db/version_set.cc:1478-1489 | the shortest beginning of the files whose sizes reach the limit, or all of them |
| `DropRules.DroppedNewestIsObsolete` | Arts_Explorer/Pods/leveldb-library/db/db_impl.cc:943-958 | when the newest visible entry of a read at or above the smallest snapshot is dropped, it was an obsolete deletion marker |
| `DropRules.ReadAfterCompaction` | Arts_Explorer/Pods/leveldb-library/db/db_impl.cc:922-963 | when no dropped marker is exposed, every read from the smallest snapshot on is the same after dropping |
| `DropRules.ReadBelowMarker` | Arts_Explorer/Pods/leveldb-library/db/db_impl.cc:948-958 | a read whose newest entry is a dropped marker finds the newest entry outside the inputs below the marker |
| `DropRules.CompactionPreservesReadsIff` | Arts_Explorer/Pods/leveldb-library/db/db_impl.cc:890-963 | dropping hidden entries and obsolete markers leaves every read from the smallest snapshot on unchanged if and only if no dropped marker uncovers an older value outside the inputs |
| `Compaction.CompactionState.IsBaseLevelForKey` | Arts_Explorer/Pods/leveldb-library/db/version_set.cc:1533-1552 | the scan with level pointers, called with non-decreasing user keys, answers the stateless question whether a deeper level may hold the key |
| `Compaction.CompactionState.ShouldStopBefore` | Arts_Explorer/Pods/leveldb-library/db/version_set.cc:1554-1576 | advances the grandparent scan and asks for a new output exactly when the overlap passed since the last cut exceeds the limit |
| `Compaction.CompactionState.ShouldDrop` | Arts_Explorer/Pods/leveldb-library/db/db_impl.cc:922-963 | drops an entry exactly when a newer entry of its key is visible at the smallest snapshot or it is an obsolete marker at the base level |
| `Compaction.CompactionState.DoCompactionWork` | Arts_Explorer/Pods/leveldb-library/db/db_impl.cc:878-1013 | the loop over the merged inputs writes exactly the surviving entries, in order; every output without its last entry is below the size limit and passes over no more grandparent bytes than allowed, and none but the last ends for another reason |
| `Compaction.HiddenByPredecessor` | Arts_Explorer/Pods/leveldb-library/db/db_impl.cc:934-946 | comparing with the previous sequence number of the same user key detects exactly the hidden entries |
| `Compaction.DropsWhatDies` | Arts_Explorer/Pods/leveldb-library/db/db_impl.cc:922-963 | on a sorted input the survivors of the loop are the entries the declarative drop rule keeps |
| `CompactionReads.CompactionIsCorrect` | Arts_Explorer/Pods/leveldb-library/db/db_impl.cc:878-1013 | installing a compaction's outputs keeps every read from the smallest snapshot on if and only if its inputs expose no marker |
| `CompactionReads.ClosedInputsExposeNothing` | Arts_Explorer/Pods/leveldb-library/db/version_set.cc:1403-1447 | if no level L+1 file outside the inputs shares a user key with one inside, no marker is exposed |
| `CompactionReads.SplitPearIsPicked` | Arts_Explorer/Pods/leveldb-library/db/version_set.cc:1270-1322 | on the concrete version the automatic choice picks exactly these inputs |
| `CompactionReads.DeletedKeyComesBack` | Arts_Explorer/Pods/leveldb-library/db/version_set.cc:1407-1410 | the compaction of these inputs, with what its loop writes and the version that is installed: a deleted key is readable again, because only the level-L inputs are closed under shared boundary keys |
| `LevelChanges.FlushKeepsLevelInvariant` | Arts_Explorer/Pods/leveldb-library/db/db_impl.cc:491-533 | adding a table of newer entries at a safe level keeps the levels sorted and disjoint and recency in order of depth |
| `LevelChanges.FlushAddsContents` | Arts_Explorer/Pods/leveldb-library/db/db_impl.cc:513-526 | a flush adds exactly the table's entries to the version |
| `LevelChanges.CompactionKeepsLevelInvariant` | Arts_Explorer/Pods/leveldb-library/db/db_impl.cc:860-876 | installing a compaction, or a trivial move, keeps the level invariant |
| `LevelChanges.CompactionContents` | Arts_Explorer/Pods/leveldb-library/db/db_impl.cc:860-876 | after a compaction the version holds the old entries less the inputs' plus the outputs' |
| `Manifest.ReplayEqualsFold` | Arts_Explorer/Pods/leveldb-library/db/version_set.cc:650-754 | applying all edits with one builder gives the version that applying them one version at a time gives, when no file number is added twice to a level |
| `Manifest.SnapshotSaves` | Arts_Explorer/Pods/leveldb-library/db/version_set.cc:1088-1116 | the snapshot record applied to the empty version gives back the version it was written from |
| `Manifest.RecoverRebuildsCurrent` | Arts_Explorer/Pods/leveldb-library/db/version_set.cc:924-1000 | replaying a manifest that starts with a snapshot rebuilds the current version exactly |
| `Manifest.InsertSorted` | Arts_Explorer/Pods/leveldb-library/db/version_set.cc:629-640 | inserts into the set of added files ordered by smallest key, then number |
| `Manifest.MergeLevel` | Arts_Explorer/Pods/leveldb-library/db/version_set.cc:695-722 | merging base and added files gives the sorted union less the deleted numbers |
| `Manifest.Builder.Apply` | Arts_Explorer/Pods/leveldb-library/db/version_set.cc:650-692 | after each edit the builder stands for all edits so far, an addition cancelling an earlier deletion of its number |
| `Manifest.Builder.SaveTo` | Arts_Explorer/Pods/leveldb-library/db/version_set.cc:695-727 | the saved version is sorted and holds exactly the base and added files that no edit deleted for good |
| `ManifestGrowth.SoundManifestExtends` | Arts_Explorer/Pods/leveldb-library/db/version_set.cc:801-884 | appending an edit whose additions carry new numbers, or move files up from shallower levels, keeps the manifest replayable |
| `ManifestGrowth.FreshManifestIsSound` | Arts_Explorer/Pods/leveldb-library/db/version_set.cc:1088-1116 | a manifest holding only a snapshot is replayable |
| `ManifestGrowth.SoundManifestRecovers` | Arts_Explorer/Pods/leveldb-library/db/version_set.cc:886-1000 | whatever version recovery reads back from a replayable manifest is the version it describes |
| `HistoryReads.RepresentedExtends` | Arts_Explorer/Pods/leveldb-library/db/db_impl.cc:1100-1145 | a version that represents the first n writes, with the later writes on top, answers like all of them |
| `HistoryReads.FlushRepresents` | Arts_Explorer/Pods/leveldb-library/db/db_impl.cc:535-566 | flushing the writes n+1 .. m to a version that represents the first n gives one that represents the first m |
| `HistoryReads.CompactionRepresents` | Arts_Explorer/Pods/leveldb-library/db/db_impl.cc:860-876 | a compaction leaves what the version represents unchanged |
| `HistoryReads.MoveRepresents` | Arts_Explorer/Pods/leveldb-library/db/db_impl.cc:712-735 | a trivial move leaves what the version represents unchanged |
| `HistoryReads.RecoveryRepresents` | Arts_Explorer/Pods/leveldb-library/db/db_impl.cc:424-448 | the level-0 tables recovery cuts from the replayed logs, together with the recovered version, represent every logged write |
| `DurabilityProofs.RunningLogTail` | Arts_Explorer/Pods/leveldb-library/db/db_impl.cc:535-566 | while the database runs, the logs from the manifest's log number on hold exactly the writes the manifest's version lacks |
| `DurabilityProofs.WriterKeepsInv` | Arts_Explorer/Pods/leveldb-library/db/db_impl.cc:1185-1256 | logging, inserting and publishing a group and switching memtables keep the durability invariant |
| `DurabilityProofs.DeletionKeepsInv` | Arts_Explorer/Pods/leveldb-library/db/db_impl.cc:223-278 | deleting obsolete files removes no log that recovery needs and no table of a referenced version |
| `DurabilityProofs.OnlyNeededFilesStay` | Arts_Explorer/Pods/leveldb-library/db/db_impl.cc:223-278 | run to its end, deletion keeps exactly the logs from the manifest's log number on and the tables of referenced versions |
| `DurabilityProofs.BuildTableKeepsInv` | Arts_Explorer/Pods/leveldb-library/db/db_impl.cc:491-533 | writing the memtable's table keeps the durability invariant |
| `DurabilityProofs.BuildOutputsKeepsInv` | Arts_Explorer/Pods/leveldb-library/db/db_impl.cc:878-1013 | writing a compaction's outputs keeps the durability invariant |
| `DurabilityProofs.MoveKeepsInv` | Arts_Explorer/Pods/leveldb-library/db/db_impl.cc:712-735 | proposing a trivial move keeps the durability invariant |
| `DurabilityProofs.AppendKeepsInv` | Arts_Explorer/Pods/leveldb-library/db/version_set.cc:801-884 | the manifest append makes the new version durable while the old one is still current |
| `DurabilityProofs.InstallKeepsInv` | Arts_Explorer/Pods/leveldb-library/db/version_set.cc:865-884 | installing the appended version keeps the durability invariant |
| `DurabilityProofs.CrashKeepsInv` | Arts_Explorer/Pods/leveldb-library/db/db_impl.cc:280-369 | a crash between any two steps leaves a disk from which recovery can work |
| `DurabilityProofs.AbandonKeepsInv` | Arts_Explorer/Pods/leveldb-library/db/db_impl.cc:280-369 | so does a crash in the middle of recovery |
| `DurabilityProofs.RecoveryFindsEverything` | Arts_Explorer/Pods/leveldb-library/db/db_impl.cc:316-369 | recovery reads back the described version with all its tables, and the remaining logs replay exactly the missing writes and the right last sequence number |
| `DurabilityProofs.RecoverKeepsInv` | Arts_Explorer/Pods/leveldb-library/db/db_impl.cc:280-369 | recovery restarts the database with every logged write represented |
| `DurabilityProofs.StepKeepsInv` | Arts_Explorer/Pods/leveldb-library/db/db_impl.cc:223-1367 | every action keeps the durability invariant |
| `DurabilityProofs.RunKeepsInv` | Arts_Explorer/Pods/leveldb-library/db/db_impl.cc:182-1367 | the durability invariant holds in every state of every run from creation on |
| `Runs.ReadsMatchHistory` | Arts_Explorer/Pods/leveldb-library/db/db_impl.cc:1100-1145 | in every running state a read at the current sequence number or a live snapshot answers like the logged writes up to it |
| `Runs.Get` | Arts_Explorer/Pods/leveldb-library/db/db_impl.cc:1100-1145 | the lookup through skip lists and files returns what the write history up to the snapshot says |
| `Runs.AcknowledgedWritesAreDurable` | Arts_Explorer/Pods/leveldb-library/db/db_impl.cc:1185-1256 | what was acknowledged in a state of a run is part of what every later running state shows, crashes or not |
| `Runs.SnapshotReadsAreStable` | Arts_Explorer/Pods/leveldb-library/db/db_impl.cc:1166-1173 | a snapshot held in two states of a run reads the same in both |
| `Runs.SnapshotIsCurrent` | Arts_Explorer/Pods/leveldb-library/db/db_impl.cc:1166-1169 | GetSnapshot adds one snapshot, with every acknowledged write in it and nothing logged later; in every later running state that holds it, it reads what the database showed as current when it was taken |
| `Runs.OldestIsLeast` | Arts_Explorer/Pods/leveldb-library/db/db_impl.cc:890-894 | the snapshot compactions preserve reads from is live and no live one is older |
| `Runs.ReleaseDropsOne` | Arts_Explorer/Pods/leveldb-library/db/db_impl.cc:1171-1174 | releasing a snapshot takes exactly that one away |
| `Runs.LevelsStaySound` | Arts_Explorer/Pods/leveldb-library/db/version_set.cc:326-421 | the level invariant holds in every running state of every run |
| `Runs.CrashLosesNothing` | Arts_Explorer/Pods/leveldb-library/db/db_impl.cc:316-369 | after a crash anywhere in a run, the replayed manifest and logs answer like every write ever logged |
| `DbIterator.YieldsAreReads` | Arts_Explorer/Pods/leveldb-library/db/db_iter.cc:168-198 | the reference list holds exactly the keys with a visible value, in key order, each with the value a read returns |
| `DbIterator.DbIter.Next` | Arts_Explorer/Pods/leveldb-library/db/db_iter.cc:141-166 | moves the user cursor to the next place of the reference list, also after a change of direction |
| `DbIterator.DbIter.FindNextUserEntry` | Arts_Explorer/Pods/leveldb-library/db/db_iter.cc:168-198 | stops at the next user entry past the skipped keys and passes over none |
| `DbIterator.DbIter.Prev` | Arts_Explorer/Pods/leveldb-library/db/db_iter.cc:200-225 | moves the user cursor to the previous place of the reference list, also after a change of direction |
| `DbIterator.DbIter.FindPrevUserEntry` | Arts_Explorer/Pods/leveldb-library/db/db_iter.cc:227-267 | stops with the last user entry before the scan and leaves the inner cursor before all of its entries |
| `DbIterator.DbIter.Seek` | Arts_Explorer/Pods/leveldb-library/db/db_iter.cc:269-281 | lands on the first user entry whose key is not before the target |
| `DbIterator.DbIter.SeekToFirst` | Arts_Explorer/Pods/leveldb-library/db/db_iter.cc:283-292 | lands on the first place of the reference list |
| `DbIterator.DbIter.SeekToLast` | Arts_Explorer/Pods/leveldb-library/db/db_iter.cc:294-299 | lands on the last place of the reference list |
| `DbIterator.DbIter.Key` | Arts_Explorer/Pods/leveldb-library/db/db_iter.cc:64-67 | the key of the current place |
| `DbIterator.DbIter.Value` | Arts_Explorer/Pods/leveldb-library/db/db_iter.cc:68-71 | the value of the current place |
| `MergingIterator.MergeExists` | Arts_Explorer/Pods/leveldb-library/table/merger.cc:178-189 | distinct sorted cursors over distinct keys have a merged list |
| `MergingIterator.MergingIter.FindSmallest` | Arts_Explorer/Pods/leveldb-library/table/merger.cc:148-161 | with every child cut at place k the smallest child entry is entry k of the merge |
| `MergingIterator.MergingIter.FindLargest` | Arts_Explorer/Pods/leveldb-library/table/merger.cc:163-176 | with every child cut before place k the largest child entry is entry k - 1 of the merge |
| `MergingIterator.MergingIter.SeekToFirst` | Arts_Explorer/Pods/leveldb-library/table/merger.cc:31-37 | lands on the first entry of the merge |
| `MergingIterator.MergingIter.SeekToLast` | Arts_Explorer/Pods/leveldb-library/table/merger.cc:39-45 | lands on the last entry of the merge |
| `MergingIterator.MergingIter.Seek` | Arts_Explorer/Pods/leveldb-library/table/merger.cc:47-53 | lands on the first entry of the merge not before the target |
| `MergingIterator.MergingIter.TurnForward` | Arts_Explorer/Pods/leveldb-library/table/merger.cc:64-76 | repositions the other children strictly after the current key |
| `MergingIterator.MergingIter.TurnReverse` | Arts_Explorer/Pods/leveldb-library/table/merger.cc:90-106 | repositions the other children strictly before the current key |
| `MergingIterator.MergingIter.Next` | Arts_Explorer/Pods/leveldb-library/table/merger.cc:55-80 | moves to the next entry of the merge whatever the direction before |
| `MergingIterator.MergingIter.Prev` | Arts_Explorer/Pods/leveldb-library/table/merger.cc:82-108 | moves to the previous entry of the merge whatever the direction before |
| `Crc32c.ExtendComposes` | Arts_Explorer/Pods/leveldb-library/util/crc32c.h:17-22 | extending the checksum of A by B is the checksum of A followed by B |
| `Crc32c.UnmaskMask` | Arts_Explorer/Pods/leveldb-library/util/crc32c.h:29-38 | unmasking undoes masking |
| `LogFormat.CompleteEndsInside` | Arts_Explorer/Pods/leveldb-library/db/log_format.h:14-32 | a record counts as complete in the first n bytes exactly when its last byte is among them |
| `LogFormat.LogAppends` | Arts_Explorer/Pods/leveldb-library/db/log_writer.cc:34-80 | the bytes of a log with one more record are the log's bytes and then the framed record |
| `LogWriter.Writer.AddRecord` | Arts_Explorer/Pods/leveldb-library/db/log_writer.cc:34-80 | terminates, although a fragment may be empty at a block's end, and appends exactly the framed record |
| `LogWriter.Writer.EmitPhysicalRecord` | Arts_Explorer/Pods/leveldb-library/db/log_writer.cc:82-108 | appends checksum, length, type and payload |
| `LogWriter.WriteAll` | Arts_Explorer/Pods/leveldb-library/db/log_writer.cc:34-80 | a log written record by record holds exactly the framed records |
| `LogReader.ParseFragment` | Arts_Explorer/Pods/leveldb-library/db/log_reader.cc:221-262 | the bytes of a fragment read back as its type and payload and pass the checksum test |
| `LogReader.Reader.ReadPhysicalRecord` | Arts_Explorer/Pods/leveldb-library/db/log_reader.cc:189-271 | always ends; on a prefix of a log it returns the next fragment if it is whole, and the end of the file otherwise, without reporting corruption |
| `LogReader.Reader.ReadRecord` | Arts_Explorer/Pods/leveldb-library/db/log_reader.cc:56-174 | always ends; on a prefix of a log it returns the next record if it is whole, and nothing otherwise, without reporting corruption |
| `LogReader.ReadAll` | Arts_Explorer/Pods/leveldb-library/db/db_impl.cc:414-456 | from any byte prefix of a written log come exactly the records whose last byte the prefix holds, in order, with nothing reported as dropped |
| `Formats.LogExample` | Arts_Explorer/Pods/leveldb-library/db/log_format.h:14-32 | three records over four blocks, fragment by fragment: whole, first, middle and last fragments, and six bytes of padding |
| `Formats.HeaderBytes` | Arts_Explorer/Pods/leveldb-library/db/log_format.h:29-32 | a fragment's header is the masked checksum of type and payload, the length with its low byte first, and the type |
| `Coding.Fixed32RoundTrip` | Arts_Explorer/Pods/leveldb-library/util/coding.cc:9-19 | decoding a fixed32 gives back the number |
| `Coding.Fixed64RoundTrip` | Arts_Explorer/Pods/leveldb-library/util/coding.cc:21-34 | decoding a fixed64 gives back the number |
| `Formats.Fixed32IsLittleEndian` | Arts_Explorer/Pods/leveldb-library/util/coding.h:5-8 | the bytes of a fixed32 are its digits to base 256, lowest first |
| `Formats.Fixed64IsLittleEndian` | Arts_Explorer/Pods/leveldb-library/util/coding.h:5-8 | a fixed64 is its low half and then its high half |
| `Formats.VarintDigits` | Arts_Explorer/Pods/leveldb-library/util/coding.h:5-8 | the bytes of a varint are its digits to base 128, lowest first, all but the last marked |
| `Coding.EncodeVarint32` | Arts_Explorer/Pods/leveldb-library/util/coding.cc:48-76 | the unrolled encoder writes the varint of the number in at most five bytes |
| `Coding.EncodeVarint64` | Arts_Explorer/Pods/leveldb-library/util/coding.cc:84-93 | the loop writes the varint of the number |
| `Coding.GetVarint32Ptr` | Arts_Explorer/Pods/leveldb-library/util/coding.cc:116-133 | the fast path and the shifting loop agree with the recursive meaning of a varint, truncated to 32 bits |
| `Coding.VarintRoundTrip` | Arts_Explorer/Pods/leveldb-library/util/coding.cc:84-93 | a varint decodes to its number wherever it stands |
| `Coding.LengthPrefixedRoundTrip` | Arts_Explorer/Pods/leveldb-library/util/coding.cc:100-103 | a length-prefixed string decodes to the string |
| `WriteBatch.WriteBatch.SetSequence` | Arts_Explorer/Pods/leveldb-library/db/write_batch.cc:94-96 | patches the sequence number and nothing else |
| `WriteBatch.WriteBatch.PutOp` | Arts_Explorer/Pods/leveldb-library/db/write_batch.cc:98-109 | appends one operation and counts it |
| `WriteBatch.WriteBatch.Append` | Arts_Explorer/Pods/leveldb-library/db/write_batch.cc:142-147 | the merged batch holds the operations of the first, then those of the second |
| `WriteBatch.WriteBatch.Iterate` | Arts_Explorer/Pods/leveldb-library/db/write_batch.cc:42-80 | iterating a batch gives exactly its operations, in order, with status OK |
| `WriteBatch.WriteBatch.InsertInto` | Arts_Explorer/Pods/leveldb-library/db/write_batch.cc:115-135 | the memtable receives the operations under consecutive sequence numbers |
| `WriteBatch.RecordsConcat` | Arts_Explorer/Pods/leveldb-library/db/write_batch.cc:142-147 | the records of two operation lists one after the other are the records of the joined list |
| `Formats.BatchRecords` | Arts_Explorer/Pods/leveldb-library/db/write_batch.cc:5-13 | the bytes of a concrete Put and Delete |
| `WriteQueue.BuildBatchGroup` | Arts_Explorer/Pods/leveldb-library/db/db_impl.cc:1258-1306 | the longest group from the front that is neither too big nor puts a synced write under an unsynced leader, with its operations in queue order |
| `WriteQueue.GroupIsBounded` | Arts_Explorer/Pods/leveldb-library/db/db_impl.cc:1267-1274 | a group stays within 1 MB unless its first write alone is larger, and behind a small first write within 128 KB more than that write |
| `WriteQueue.RunKeepsInv` | Arts_Explorer/Pods/leveldb-library/db/db_impl.cc:1185-1256 | the queue invariant holds in every state of every interleaving |
| `WriteQueue.GroupCommit` | Arts_Explorer/Pods/leveldb-library/db/db_impl.cc:1185-1256 | over every interleaving writers finish once and in queue order, their operations are logged in that order under the numbers 1, 2, 3, ..., and a synced write finishes only under a synced record |
| `WriteQueue.SomeoneProceeds` | Arts_Explorer/Pods/leveldb-library/db/db_impl.cc:1185-1256 | while anyone waits the front writer can go on, and finishing shortens the queue |
| `SkipList.SkipList.ReadStep` | Arts_Explorer/Pods/leveldb-library/db/skiplist.h:262-281 | one load by a reader keeps its place or finishes at the first key not before the target |
| `SkipList.SkipList.FindGreaterOrEqual` | Arts_Explorer/Pods/leveldb-library/db/skiplist.h:262-281 | from any starting height, stale or fresh, finds the first node not before the key and the predecessors on every level |
| `SkipList.SkipList.FindLessThan` | Arts_Explorer/Pods/leveldb-library/db/skiplist.h:284-302 | finds the last node before the key |
| `SkipList.SkipList.FindLast` | Arts_Explorer/Pods/leveldb-library/db/skiplist.h:305-323 | finds the last node |
| `SkipList.SkipList.Contains` | Arts_Explorer/Pods/leveldb-library/db/skiplist.h:371-379 | true exactly when the key is in the list |
| `SkipList.SkipList.Prepare` | Arts_Explorer/Pods/leveldb-library/db/skiplist.h:363-365 | the store into the new node leaves every level sorted and nested |
| `SkipList.SkipList.Publish` | Arts_Explorer/Pods/leveldb-library/db/skiplist.h:366-366 | the publishing store leaves every level sorted and nested and adds exactly the node to one level |
| `SkipList.SkipList.Insert` | Arts_Explorer/Pods/leveldb-library/db/skiplist.h:337-368 | adds exactly one node, in its place, to each of the lowest levels; the list is sound after every single store |
| `SkipList.PublishKeepsSound` | Arts_Explorer/Pods/leveldb-library/db/skiplist.h:359-367 | publishing a prepared link keeps the pointers following sorted, nested lists |
| `SkipList.ReaderSurvives` | Arts_Explorer/Pods/leveldb-library/db/skiplist.h:345-367 | however many links are published between two loads, a search keeps its place and no key is lost |
| `BlockBuilder.BlockBuilder.Add` | Arts_Explorer/Pods/leveldb-library/table/block_builder.cc:71-106 | the block stands for the entries added, with the longest common prefix dropped and a restart after every interval |
| `BlockBuilder.BlockBuilder.Finish` | Arts_Explorer/Pods/leveldb-library/table/block_builder.cc:62-69 | the finished bytes are a block of the entries if they fit in 32 bits |
| `BlockReader.DecodeEntry` | Arts_Explorer/Pods/leveldb-library/table/block.cc:54-74 | the one-byte fast path and the varint path decode the same |
| `BlockReader.DecodedIs` | Arts_Explorer/Pods/leveldb-library/table/block.cc:54-74 | decoding at an entry's offset finds its shared length, its own key bytes and its value |
| `BlockReader.BlockIter.ParseNextKey` | Arts_Explorer/Pods/leveldb-library/table/block.cc:228-251 | on a block moves to the next entry and keeps the restart index right or one behind; on any bytes it moves forward or reports corruption |
| `BlockReader.BlockIter.Next` | Arts_Explorer/Pods/leveldb-library/table/block.cc:142-145 | moves to the next entry |
| `BlockReader.BlockIter.Prev` | Arts_Explorer/Pods/leveldb-library/table/block.cc:147-165 | moves to the immediate predecessor although the restart index may lag at a restart point |
| `BlockReader.BlockIter.FindRestart` | Arts_Explorer/Pods/leveldb-library/table/block.cc:167-195 | the binary search ends at a restart point before which every key is smaller than the target |
| `BlockReader.BlockIter.Seek` | Arts_Explorer/Pods/leveldb-library/table/block.cc:167-207 | lands on the first key not before the target |
| `BlockReader.BlockIter.SeekToFirst` | Arts_Explorer/Pods/leveldb-library/table/block.cc:209-212 | lands on the first entry |
| `BlockReader.BlockIter.SeekToLast` | Arts_Explorer/Pods/leveldb-library/table/block.cc:214-219 | lands on the last entry |
| `BlockReader.NewIterator` | Arts_Explorer/Pods/leveldb-library/table/block.cc:26-44 | finds the restart array of a block from its end |
| `BlockRoundTrip.RoundTrip` | Arts_Explorer/Pods/leveldb-library/table/block_builder.cc:62-106 | iterating over a finished block yields the entries added, for every restart interval |
| `Comparator.FindShortestSeparator` | Arts_Explorer/Pods/leveldb-library/util/comparator.cc:30-54 | the shortest string strictly between start and limit if they part with a byte in between, and the start itself exactly otherwise |
| `Comparator.FindShortSuccessor` | Arts_Explorer/Pods/leveldb-library/util/comparator.cc:56-69 | the shortest string after the key if it holds a byte other than 0xff, and the key itself exactly otherwise |
| `Comparator.InternalSeparator` | Arts_Explorer/Pods/leveldb-library/db/dbformat.cc:69-86 | the shortest user key strictly between the two, with the greatest number, exactly when that is shorter than the start; otherwise the start |
| `Comparator.InternalSuccessor` | Arts_Explorer/Pods/leveldb-library/db/dbformat.cc:88-101 | the shortest user key after the key's own, with the greatest number, exactly when that is shorter; otherwise the key |
| `Comparator.SeparatorIsBetween` | Arts_Explorer/Pods/leveldb-library/db/dbformat.cc:69-86 | an internal separator is not before the start and is before the limit |
| `Bloom.BloomFilterPolicy.CreateFilter` | Arts_Explorer/Pods/leveldb-library/util/bloom.cc:28-54 | exactly the probes of the keys are set, in a filter of the right size; every key may match it |
| `Bloom.MatchIff` | Arts_Explorer/Pods/leveldb-library/util/bloom.cc:56-80 | a key may match a filter if and only if each of its probes is a probe of a key the filter was made for |
| `Bloom.BloomFilterPolicy.KeyMayMatch` | Arts_Explorer/Pods/leveldb-library/util/bloom.cc:56-80 | true exactly when the filter is reserved or all probes of the key are set |
| `FilterBlock.FilterBlockBuilder.StartBlock` | Arts_Explorer/Pods/leveldb-library/table/filter_block.cc:21-27 | closes the filters of all earlier 2 KB ranges, the first of them over the keys gathered so far |
| `FilterBlock.FilterBlockBuilder.GenerateFilter` | Arts_Explorer/Pods/leveldb-library/table/filter_block.cc:51-75 | adds one filter over exactly the gathered keys, one that matches nothing when there are none |
| `FilterBlock.KeyMayMatch` | Arts_Explorer/Pods/leveldb-library/table/filter_block.cc:89-105 | never rules out a key of the group of the block's offset |
| `TableBuilder.TableBuilder.Add` | Arts_Explorer/Pods/leveldb-library/table/table_builder.cc:94-122 | adds one entry, ending the data block exactly when the entry brings it to the block size; index, blocks and filters stay those of a table under construction |
| `TableBuilder.TableBuilder.Flush` | Arts_Explorer/Pods/leveldb-library/table/table_builder.cc:125-139 | cuts the data block without changing what the table holds |
| `TableBuilder.TableBuilder.Finish` | Arts_Explorer/Pods/leveldb-library/table/table_builder.cc:210-262 | the finished table holds everything added and nothing else, every index key separating its block from the next |
| `Table.MatchInChosenBlock` | Arts_Explorer/Pods/leveldb-library/table/table.cc:216-244 | if any block holds a match for the looked-up key, the block the index seek chooses does |
| `Table.InternalGet` | Arts_Explorer/Pods/leveldb-library/table/table.cc:216-244 | reports the newest matching entry of the user key whenever the table holds one, and no other entry of that user key |
| `VersionEditCodec.VersionEdit.EncodeTo` | Arts_Explorer/Pods/leveldb-library/db/version_edit.cc:41-87 | writes the set fields and the lists as tagged items in a fixed order |
| `VersionEditCodec.VersionEdit.DecodeFrom` | Arts_Explorer/Pods/leveldb-library/db/version_edit.cc:109-205 | always ends; on the bytes of an edit it restores every field, with the edit's compaction pointers after those already there, so it gives the edit back if and only if there were none |
| `VersionEditCodec.Reread` | Arts_Explorer/Pods/leveldb-library/db/version_set.cc:933-935 | decoding an encoded edit into a new one, as recovery does, gives an equal edit |
| `VersionEditCodec.PointerIsLeftOver` | Arts_Explorer/Pods/leveldb-library/db/version_edit.cc:25-39 | an edit decoded into twice keeps a compaction pointer that the second record does not carry, which Clear does not remove |
| `Formats.ManifestItems` | Arts_Explorer/Pods/leveldb-library/db/version_edit.cc:12-23 | the bytes of one item of each kind, with the tag numbers that must not change |
| `HandleTable.HandleTable.Lookup` | Arts_Explorer/Pods/leveldb-library/util/cache.cc:74-76 | finds what the finite map holds |
| `HandleTable.HandleTable.Insert` | Arts_Explorer/Pods/leveldb-library/util/cache.cc:78-92 | updates the finite map and returns what it replaced, through any resize |
| `HandleTable.HandleTable.Remove` | Arts_Explorer/Pods/leveldb-library/util/cache.cc:94-102 | removes from the finite map and returns what was there |
| `HandleTable.HandleTable.Resize` | Arts_Explorer/Pods/leveldb-library/util/cache.cc:122-147 | moves every entry to its new bucket in a table whose length is the least power of two that will do; the finite map stays the same |
| `HandleTable.MaskIsRemainder` | Arts_Explorer/Pods/leveldb-library/util/cache.cc:115-115 | masking a hash with the length less one picks its bucket, the length being a power of two |
| `LruCache.TakenIsSound` | Arts_Explorer/Pods/leveldb-library/util/cache.cc:217-223 | taking a handle keeps counts, lists and usage right, moving an idle entry to the in-use list |
| `LruCache.ReleasedIsSound` | Arts_Explorer/Pods/leveldb-library/util/cache.cc:225-236 | so does releasing one, freeing the entry with its last reference |
| `LruCache.DroppedIsSound` | Arts_Explorer/Pods/leveldb-library/util/cache.cc:308-316 | so does dropping an entry the table no longer finds, whether or not clients hold it |
| `LruCache.ClientIsLive` | Arts_Explorer/Pods/leveldb-library/util/cache.cc:225-236 | an entry a client holds a handle on is never a freed one |
| `LruCache.LruCache.Lookup` | Arts_Explorer/Pods/leveldb-library/util/cache.cc:251-258 | answers the finite map and takes a handle |
| `LruCache.LruCache.Release` | Arts_Explorer/Pods/leveldb-library/util/cache.cc:260-263 | gives a handle back; an entry that loses its last client then is idle from this moment, behind every other in the list, which is in the order of these times |
| `LruCache.LruCache.Insert` | Arts_Explorer/Pods/leveldb-library/util/cache.cc:265-304 | replaces an entry of the key and evicts idle entries, each idle longer than every one kept and no more than needed, until usage fits or none is left |
| `LruCache.IdleOthers` | Arts_Explorer/Pods/leveldb-library/util/cache.cc:291-296 | an insertion chooses among the idle entries of the other keys |
| `LruCache.LruCache.Erase` | Arts_Explorer/Pods/leveldb-library/util/cache.cc:318-321 | removes the key from the map and touches no client |
| `LruCache.LruCache.Prune` | Arts_Explorer/Pods/leveldb-library/util/cache.cc:323-333 | removes every idle entry and no other |
| `TwoLevelIterator.SeekAgrees` | Arts_Explorer/Pods/leveldb-library/table/two_level_iterator.cc:82-87 | the lower bound in the index, then in its block, is the lower bound in all blocks laid one after the other |
| `TwoLevelIterator.LevelIsLayout` | Arts_Explorer/Pods/leveldb-library/db/version_set.cc:164-228 | the concatenating iterator of a sorted level walks exactly the level's entries, in order |
| `TwoLevelIterator.TwoLevelIter.InitDataBlock` | Arts_Explorer/Pods/leveldb-library/table/two_level_iterator.cc:146-161 | puts the data cursor on the index cursor's block, keeping it when the handle is the same |
| `TwoLevelIterator.TwoLevelIter.SkipEmptyDataBlocksForward` | Arts_Explorer/Pods/leveldb-library/table/two_level_iterator.cc:115-126 | passes ended and empty blocks to the wanted entry of the flat list |
| `TwoLevelIterator.TwoLevelIter.SkipEmptyDataBlocksBackward` | Arts_Explorer/Pods/leveldb-library/table/two_level_iterator.cc:128-139 | the same towards the front |
| `TwoLevelIterator.TwoLevelIter.Seek` | Arts_Explorer/Pods/leveldb-library/table/two_level_iterator.cc:82-87 | lands on the first entry of the flat list not before the target |
| `TwoLevelIterator.TwoLevelIter.SeekToFirst` | Arts_Explorer/Pods/leveldb-library/table/two_level_iterator.cc:89-94 | lands on the first entry of the flat list |
| `TwoLevelIterator.TwoLevelIter.SeekToLast` | Arts_Explorer/Pods/leveldb-library/table/two_level_iterator.cc:96-101 | lands on its last entry |
| `TwoLevelIterator.TwoLevelIter.Next` | Arts_Explorer/Pods/leveldb-library/table/two_level_iterator.cc:103-107 | moves to the next entry, across blocks |
| `TwoLevelIterator.TwoLevelIter.Prev` | Arts_Explorer/Pods/leveldb-library/table/two_level_iterator.cc:109-113 | moves to the previous entry, across blocks |
| `NestedFlush.NestedFlushIff` | Arts_Explorer/Pods/leveldb-library/db/db_impl.cc:908-918 | whatever the compaction writes, the level invariant survives a flush inside it if and only if a table flushed to the output level lies below all level-L inputs or above all of them |
| `NestedFlush.OutsideIff` | Arts_Explorer/Pods/leveldb-library/db/db_impl.cc:908-918 | all outputs a compaction of these inputs may write are disjoint from the flushed table if and only if the table lies on one side of the level-L inputs |
| `NestedFlush.OneSideIsOutsideRange` | Arts_Explorer/Pods/leveldb-library/db/version_set.cc:1205-1225 | lying on one side of files is not overlapping the range GetRange gives of them |
| `NestedFlush.OnlyGapsHarm` | Arts_Explorer/Pods/leveldb-library/db/db_impl.cc:908-918 | a flushed table outside the user keys of the level-L inputs is disjoint from the outputs |
| `NestedFlush.GapBreaksLevels` | Arts_Explorer/Pods/leveldb-library/db/db_impl.cc:908-918 | for every table between level-L inputs there are outputs and installed versions with overlapping files in a level |
| `NestedFlush.OneInputIsSafe` | Arts_Explorer/Pods/leveldb-library/db/db_impl.cc:908-918 | with one level-L input the level invariant survives any flush inside the compaction |
| `NestedFlush.FlushIntoGap` | Arts_Explorer/Pods/leveldb-library/db/db_impl.cc:908-918 | a concrete version, table and compaction of two level-L inputs with all entries in one output: the versions installed, and the overlapping files in the last one |
| `NestedFlush.GapLevelIsChosen` | Arts_Explorer/Pods/leveldb-library/db/version_set.cc:491-516 | the code places that table at the output level |
| `NestedFlush.GapInputsAreChosen` | Arts_Explorer/Pods/leveldb-library/db/version_set.cc:1464-1495 | a manual compaction of the level picks both inputs |
| `Cursors.VersionRunsAre` | Arts_Explorer/Pods/leveldb-library/db/version_set.cc:230-246 | the cursors AddIterators collects are sorted, never hold two entries of one user key and number, and together hold the version |
| `Cursors.LevelRunIsFlat` | Arts_Explorer/Pods/leveldb-library/db/version_set.cc:221-228 | the concatenating iterator's list is the level's files one after the other |
| `Cursors.IteratorRunsAre` | Arts_Explorer/Pods/leveldb-library/db/db_impl.cc:1068-1076 | so are the children of the internal iterator, which together hold memtables and version |
| `Cursors.NewInternalIterator` | Arts_Explorer/Pods/leveldb-library/db/db_impl.cc:1062-1087 | a merging cursor over a sorted list of everything the database holds |
| `Cursors.CursorWalksHistory` | Arts_Explorer/Pods/leveldb-library/db/db_impl.cc:1147-1160 | in every running state, at a live snapshot, the user cursor over that list walks exactly the keys with a value in the logged writes up to the snapshot, in order and with these values |
| `Cursors.RunningCanBeMerged` | Arts_Explorer/Pods/leveldb-library/db/db_impl.cc:1062-1087 | in every running state the internal iterator can be built |
| `UserCursors.CursorWalksTheMap` | Arts_Explorer/Pods/leveldb-library/db/db_impl.cc:1147-1160 | in every running state, at every live snapshot, a user's cursor walks exactly the keys of the map that the operations up to the snapshot leave, in the comparator's order, with their values |
| `SkipListReaders.Reader.Load` | Arts_Explorer/Pods/leveldb-library/db/skiplist.h:262-281 | one load keeps a search on its way or ends it at the first node not before its target in the list at that moment |
| `SkipListReaders.LinkBeside` | Arts_Explorer/Pods/leveldb-library/db/skiplist.h:359-367 | the two stores of a level, with any loads after each, leave the list sound and the search on its way |
| `SkipListReaders.InsertBeside` | Arts_Explorer/Pods/leveldb-library/db/skiplist.h:337-368 | whatever loads fall between the stores of an insertion, a search that ends, ends at the first node not before its target in the list as it then is, which is the list before or after the insertion |
| `CommitPath.StepAgrees` | Arts_Explorer/Pods/leveldb-library/db/db_impl.cc:1185-1256 | queue and durable state go together through every step: the group logged is the leader's, and finishing it is publishing it |
| `Operations.RankEmbeds` | Arts_Explorer/Pods/leveldb-library/util/comparator.cc:22-26 | byte strings have ranks among the reals in the comparator's order |
| `Operations.EntryTellsOp` | Arts_Explorer/Pods/leveldb-library/db/write_batch.cc:121-127 | the entry that an operation puts into the memtable tells the operation |
| `Operations.ReadsReplay` | Arts_Explorer/Pods/leveldb-library/db/write_batch.cc:115-135 | reading the entries of operations gives what the map holds that Put sets and Delete removes from |
| `Operations.SnapshotReadsReplay` | Arts_Explorer/Pods/leveldb-library/db/write_batch.cc:115-135 | at every sequence number a read sees the map left by the operations up to it |
| `CommitPath.HistoryIsOps` | Arts_Explorer/Pods/leveldb-library/db/db_impl.cc:1185-1256 | the write history of a run is a list of operations under the numbers 1, 2, 3, ... |
| `CommitPath.UsersReadTheMap` | Arts_Explorer/Pods/leveldb-library/db/db_impl.cc:1100-1145 | in every running state, at every live snapshot, a user reads exactly the map that the operations logged up to the snapshot leave |
| `CommitPath.FinishedWritesAreKept` | Arts_Explorer/Pods/leveldb-library/db/db_impl.cc:1185-1256 | the operations of the finished writers, in queue order, are the acknowledged writes, and every later running state shows them, crashes or not |
| `CommitPath.FinishedWritesAreDurable` | Arts_Explorer/Pods/leveldb-library/db/db_impl.cc:1185-1256 | in every later running state, crashes or not, a user reads the map left by the operations logged before, those of the finished writers in queue order, and those since |
| `Manifest.SavesExists` | Arts_Explorer/Pods/leveldb-library/db/version_set.cc:695-727 | a batch of edits that leaves no file number twice in a level always has a saved version |
| `NanopbIterator.FieldIter.Next` | Arts_Explorer/Pods/nanopb/pb_common.c:20-76 | moves to the next field around the end, keeping count of the required fields before it |
| `NanopbIterator.FieldIter.Find` | Arts_Explorer/Pods/nanopb/pb_common.c:78-95 | from any position finds the field of a number exactly when there is one |
| `NanopbMessages.DefaultIsInitial` | Arts_Explorer/Pods/nanopb/pb_encode.c:240-337 | a value that the encoder leaves off the wire as default is the value the decoder starts from |
| `NanopbMessages.DefaultIff` | Arts_Explorer/Pods/nanopb/pb_encode.c:313-335 | a value stays off the wire if and only if it is the one the decoder starts from, of a type without required fields, fixed-count arrays or non-empty fixed bytes inside |
| `NanopbMessages.InitialIsEmpty` | Arts_Explorer/Pods/nanopb/pb_encode.c:341-362 | the message the decoder starts from takes no bytes if and only if no field is required and every field without has_ has such a type |
| `Formats.NumberMessages` | Arts_Explorer/Pods/nanopb/pb_encode.c:769-833 | the bytes of concrete messages with a number, a negative number in zigzag form and a false that is set |
| `Formats.WideMessages` | Arts_Explorer/Pods/nanopb/pb_encode.c:641-667 | the bytes of concrete messages with a string and with both fixed widths |
| `NanopbItems.ItemsRebuild` | Arts_Explorer/Pods/nanopb/pb_decode.c:928-1076 | the decoder's effects of a message's items, one after the other on a fresh message, are all applicable and give the message, with every required field seen and every fixed-count array full |
| `NanopbItems.MessageData` | Arts_Explorer/Pods/nanopb/pb_encode.c:528-550 | every value a sound message puts on the wire is sound, and has room if and only if the message has |
| `NanopbEncoder.EncodeVarint` | Arts_Explorer/Pods/nanopb/pb_encode.c:608-628 | marking all bytes and unmarking the last writes the varint of the number |
| `NanopbEncoder.EncodeSvarint` | Arts_Explorer/Pods/nanopb/pb_encode.c:630-639 | shifting and turning over the bits is the zigzag numbering |
| `NanopbEncoder.CheckDefault` | Arts_Explorer/Pods/nanopb/pb_encode.c:240-337 | finds exactly the default values, recursively through submessages |
| `NanopbEncoder.EncodePacked` | Arts_Explorer/Pods/nanopb/pb_encode.c:160-203 | writes tag, exact length and entries of a packed array; measuring counts the same bytes |
| `NanopbEncoder.EncodeArray` | Arts_Explorer/Pods/nanopb/pb_encode.c:147-236 | encodes an array, packed if its type allows, or refuses one beyond its maximum |
| `NanopbEncoder.EncodeField` | Arts_Explorer/Pods/nanopb/pb_encode.c:341-426 | writes exactly the items of the field by its rule |
| `NanopbEncoder.EncodeSubmessage` | Arts_Explorer/Pods/nanopb/pb_encode.c:717-765 | succeeds exactly when the message is within its capacities and fits, so the measured and the written size never differ, and then writes the exact length and the message |
| `NanopbEncoder.EncodeMessage` | Arts_Explorer/Pods/nanopb/pb_encode.c:528-550 | a stream succeeds exactly when the message is within its capacities and fits; a measuring stream counts the bytes a writing stream writes, at every depth |
| `NanopbEncoder.GetEncodedSize` | Arts_Explorer/Pods/nanopb/pb_encode.c:567-576 | the size of the encoding, for exactly the messages that can be encoded |
| `NanopbStream.DecodeVarint` | Arts_Explorer/Pods/nanopb/pb_decode.c:255-275 | on any bytes takes exactly a varint of at most ten bytes and keeps 64 bits of it; gives an encoded number back |
| `NanopbStream.DecodeVarint32` | Arts_Explorer/Pods/nanopb/pb_decode.c:187-247 | on any varint of up to 36 bytes, as far as the 8-bit bit position goes, takes exactly those of five bytes below 2^32 and those padded or sign-extended behind them, with the low 32 bits; gives an encoded number back |
| `NanopbStream.OrAdds` | Arts_Explorer/Pods/nanopb/pb_decode.c:228-229 | or-ing bits above those there are adds them |
| `NanopbStream.MakeSubstream` | Arts_Explorer/Pods/nanopb/pb_decode.c:372-385 | splits off exactly the bytes under the length |
| `NanopbStream.FieldNumberBack` | Arts_Explorer/Pods/nanopb/pb_decode.c:1339-1422 | the cast of a number on the wire to the field's size and sign gives the number back for every number of the type |
| `NanopbStream.FieldNumberIff` | Arts_Explorer/Pods/nanopb/pb_decode.c:1339-1422 | a number on the wire is accepted exactly if it stands for one in the range of the field, signed fields below 64 bits taking its low 32 bits |
| `NanopbStream.DecodeSized` | Arts_Explorer/Pods/nanopb/pb_decode.c:1339-1422 | accepts and gives exactly that number for every varint |
| `NanopbStream.DecodeNumber` | Arts_Explorer/Pods/nanopb/pb_decode.c:1328-1439 | gives a number in the range of the field's type on any bytes, and the encoded number on its encoding |
| `NanopbDecoder.DecodeBlob` | Arts_Explorer/Pods/nanopb/pb_decode.c:1441-1517 | takes bytes and strings exactly if they fit with what the field adds, a string up to its first null, and no bytes at all as a cleared field of fixed length |
| `NanopbDecoder.DecodePacked` | Arts_Explorer/Pods/nanopb/pb_decode.c:426-449 | takes a packed array exactly if there is a place for every entry, and gives its entries |
| `NanopbDecoder.DecodeArray` | Arts_Explorer/Pods/nanopb/pb_decode.c:421-462 | stores one or all entries behind those there are exactly if the array's maximum allows it |
| `NanopbDecoder.DecodeField` | Arts_Explorer/Pods/nanopb/pb_decode.c:406-483 | stores the value by the field's rule as the reference does; on any bytes the message stays within the schema |
| `NanopbDecoder.SkipField` | Arts_Explorer/Pods/nanopb/pb_decode.c:321-331 | skips exactly a whole value of each wire type and refuses the wire types there are not |
| `NanopbDecoder.DecodeTag` | Arts_Explorer/Pods/nanopb/pb_decode.c:297-319 | splits a tag into number and wire type; a zero tag ends the message |
| `NanopbDecoder.DecodeMessage` | Arts_Explorer/Pods/nanopb/pb_decode.c:928-1076 | ends on any bytes with a message within the schema or an error; on any well-formed fields, in any order and number, packed or not, with fields of other schemas between them and a zero tag behind, succeeds exactly when the reference does, with its message |
| `NanopbDecoded.InitialDecoded` | Arts_Explorer/Pods/nanopb/pb_decode.c:839-922 | the defaults the decoder starts from are within the schema, recursively |
| `NanopbDecoded.StoreMember` | Arts_Explorer/Pods/nanopb/pb_decode.c:464-478 | storing a oneof member keeps at most one member of the oneof set |
| `NanopbRoundTrip.Decode` | Arts_Explorer/Pods/nanopb/pb_decode.c:1078-1090 | set to defaults, then decoded: what the reference makes of the pieces, or its error |
| `NanopbRoundTrip.FromNewer` | Arts_Explorer/Pods/nanopb/pb_decode.c:950-989 | a sound message's bytes with any well-formed unknown fields put between its fields, at any depth, decode exactly as without them |
| `NanopbOlderReader.PieceIsForeign` | Arts_Explorer/Pods/nanopb/pb_encode.c:675-707 | every field is written in a form that a reader without the field can skip |
| `NanopbOlderReader.ReadOlder` | Arts_Explorer/Pods/nanopb/pb_decode.c:950-989 | of a message encoded with a newer schema an older one, without its last fields, decodes exactly the fields it has |
| `NanopbWire.ItemsRead` | Arts_Explorer/Pods/nanopb/pb_decode.c:928-1076 | the reference receives the items of an encoded message one by one, exactly as long as their strings have room, and ends with the message |
| `NanopbWire.ForeignFieldsAreSkipped` | Arts_Explorer/Pods/nanopb/pb_decode.c:950-989 | fields of other schemas, at any depth, leave no trace in what a message means |
| `NanopbWire.FinishedIff` | Arts_Explorer/Pods/nanopb/pb_decode.c:1014-1072 | a message is accepted if and only if each piece is, the last array of fixed count is full and no required field, of those counted, is missing |
| `NanopbWire.LastValueWins` | Arts_Explorer/Pods/nanopb/pb_decode.c:406-483 | of a field received several times the last value is kept, merged into what there was if it is a message |
| `NanopbWire.SubmessagesMerge` | Arts_Explorer/Pods/nanopb/pb_decode.c:1519-1549 | what the second occurrence of a submessage does not touch stays as the first left it |
| `NanopbRoundTrip.ThroughBuffer` | Arts_Explorer/Pods/nanopb/pb_decode.c:1078-1090 | a message through a buffer comes back equal if and only if it fits and every string leaves room for its null |
| `NanopbRoundTrip.FullStringIsRefused` | Arts_Explorer/Pods/nanopb/pb_encode.c:875-899 | a concrete sound message whose string fills its array has no room for the null |

## Left out

- `Selection.PickCompaction`: the choice of level and first file by score, seek statistics or compaction pointer is a
  parameter, so every choice is allowed.
- `DurabilityProofs.DeletionKeepsInv`: deletion in the middle of a compaction, which only a flush nested in it triggers
  and which pending outputs guard against, is not a step of a run.
- `Cursors.NewInternalIterator`: the children are list cursors, which stand in for the skip list, table and concatenating
  cursors that refine the same lists; likewise `DbIter` drives a list cursor in place of the merging one.
- Read sampling in `DBIter`, statistics, loggers, properties and approximate sizes: no effect on the data.
- Corrupt internal keys and corrupt tables; for logs, blocks, batches and edits the error paths are modelled and shown
  to end, but what they report on corrupt bytes is not specified.
- The sum of two 32-bit lengths in `DecodeEntry` is not wrapped around: it matters only for corrupt blocks.
- Reading a log from an initial offset above 0, which recovery never does.
- Slow-down and stop triggers of `MakeRoomForWrite`, sleeping, condition variables: waiting changes no data.
- `Selection.PickLevelForMemTableOutput`: the grandparent size limit is a parameter and sizes are not related to bytes.
- Circular doubly linked lists of the cache and chains of its hash table as pointers: lists are sequences, so aliasing of
  list nodes is not modelled; the order of the lists and of each chain is.
- Sharding of the cache by hash bits: each shard is one cache.
- `SkipList.SkipList.Insert`: heights are parameters, and memory ordering beyond the order of the stores is not modelled.
- `Bloom.BloomFilterPolicy.CreateFilter`: bits are not packed into bytes, and the number of probes is computed with
  integers where the code multiplies doubles; only the bounds 1 to 30 matter here.
- Offsets of filters inside a filter block, the metaindex block, the footer, block checksums, compression and the block
  cache in the path of `Table.InternalGet`.
- nanopb's callbacks, extensions, heap-allocated fields, custom streams, error texts, and the delimited and
  null-terminated forms.
- Struct offsets and update in place of the destination struct: `NanopbDecoder.DecodeMessage` returns the message, one
  cell a field. The oneof members of a union are cells of which at most one is set. An array of fixed count that was
  never received holds no entries, where the struct holds whatever was there before.
- `NanopbDecoder.DecodeMessage`: what it makes of bytes that are no well-formed fields (numbers out of range, lengths
  beyond the end, wire types that do not go with a field) is only bounded by the schema, not specified further; the bit
  set of required fields is a set of numbers.
- `NanopbOlderReader.ReadOlder`: the older schema lacks the last fields of the newer one; fields lacking in other places
  are covered by `NanopbRoundTrip.FromNewer`.
- Wrap-around of `size_t` byte counts in nanopb's streams.
- Status and errors of `TwoLevelIterator`.
- The application's own Swift code, which is user interface and calls into frameworks.
- RepairDB, the C bindings, the environment and file system layer.
