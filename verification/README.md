# LevelDB and nanopb, modelled and proved

A Dafny model of the two libraries that the HolyWater app vendors: the LevelDB store and the nanopb
encoder for the Protocol Buffers wire format. One module stands for one source file or component; LevelDB's files are named from
its own directory, `HolyWater-Test/Pods/leveldb-library/`.
`dafny verify dfyconfig.toml` verifies everything.

## What is modelled

**The store.** `Database` is the whole store as one object: memtable, immutable memtable, seven levels of
tables, snapshots, and beside them, as a ghost, the history of all operations. Its steps are atomic writes,
memtable switches, flushes, trivial moves and compactions, and its invariant holds over any run of them:
levels from 1 on are sorted and disjoint, shallower data is newer, every entry stems from its operation, and
reads from the oldest snapshot on agree with history. `Versions` searches a version as the code does,
`Builder` applies edits, `Edits` says what they mean, `Inputs` selects files for compactions, `Compaction` runs the merge loop and its
drop rules, `Store` and `Steps` show what installing results keeps, `History` says what readers must see.
`MemTable` is the memtable in bytes, `SkipList` its list store by store, `Snapshots` the list of snapshots,
`Lifetime` the reference counts of versions and files, `Writers` the queue with group commit.

**Cursors.** `DbIter` over `Merger` over `TwoLevel` and `BlockIter`: each is a place in one sorted sequence,
and every call moves that place as documented, changes of direction included. `DbIter.ShowsTheMap` ties the
last of them to the map that the store stands for.

**Formats.** `Log` (records over blocks, cut anywhere, reopened), `LogDamage` (read with damage), `Block`,
`TableBuilding`, `Separators`, `Table`, `Bloom`, `FilterBlock`, `VersionEdit`, `WriteBatch`, `Coding`. Readers
and writers are proved against each other there; `Formats` states what they share in bytes and literal numbers.
**Cache:** `HandleTable`, `LruCache`, and `Rings` for the circular lists that cache, versions and snapshots share.

**nanopb.** `Nanopb` has descriptors, messages and the wire format as functions; `NanopbEncode` and
`NanopbReader` are encoder and decoder as they run, with their streams and substreams; `NanopbDecode` is
what the decoder computes, on any input. `NanopbRoundTrip` joins the two, for decoding into any message:
the law of `ConcatenationMerges` is the format's own, with `NanopbMerge` for what merging means.
`NanopbFormat` states the format in bytes and numbers.

User keys are places in a total order (the reals). `Keys.RankOrdersStrings` embeds byte strings under the
bytewise comparator, and `Separators` and `MemTable` work on the bytes themselves. `Sequences` and `Numbers`
hold small facts that several modules share.

## Where the code does not do what it promises

- `SetupOtherInputs` extends only the first level's inputs at boundaries (db/version_set.cc:1407), not the
  next level's (db/version_set.cc:1410). A user key that spans two files of the next level can then come
  back after its deletion. `Resurrection.LeftOutBoundaryLosesDeletion` is such a store; `Compaction.DropRuleExact`
  and `Store.CompactionReadsExact` say for every input when a read changes; `Store.BoundaryClosedIsSafe` is a
  condition on file ranges, to be checked before the call, that rules it out. `Database.Valid` remembers in
  `intact` whether it ever happened.
- A file number deleted and added again, for another file, within one recovery brings the old file back
  (`Builder.DoubleAddKeepsDeletedFile`). `Edits.SurvivorsAreWalked` says for every base and edit list when one
  builder over all edits agrees with replaying them, and with saving after each of them; the condition is on
  the edits. `Edits.NamedNumbersAgree`: it is met whenever a file number names one file.
- `VersionEdit::Clear` keeps the compaction pointers, so decoding into a used object restores an edit exactly
  when it had none (`VersionEdit.FreshObjectNeeded`).
- In an empty message type, nanopb's search for field number zero finds the end mark of the list and reads a
  bool (pb_common.c:91-96). `NanopbDecode.EmptyTypeMisreads` is such an input; `NanopbDecode.UnknownFieldPassed`
  says for every field list and input when an unknown field is passed over by its wire type as it should be,
  and `NanopbDecode.BoolPassesAlike` spells the condition out for each wire type.

## Model

| member | source | states |
|---|---|---|
| Keys.RankOrdersStrings | HolyWater-Test/Pods/leveldb-library/util/comparator.cc:25-27 | the bytewise order on strings is the order of their places among the reals, and distinct strings have distinct places, so what is proved of `UserKey` holds of byte strings |
| Keys.LexTotal | HolyWater-Test/Pods/leveldb-library/util/comparator.cc:25-27 | of two strings exactly one of before, equal, after holds |
| Separators.InternalKeyRoundTrip | HolyWater-Test/Pods/leveldb-library/db/dbformat.h:165-175 | parsing an appended internal key gives back user key, sequence number and type |
| Separators.EncodingKeepsOrder | HolyWater-Test/Pods/leveldb-library/db/dbformat.cc:51-67 | the comparator on encoded keys agrees with the order of internal keys: user key up, sequence number and type down |
| Separators.FindShortestSeparator | HolyWater-Test/Pods/leveldb-library/util/comparator.cc:29-50 | for any two strings: the first one cut after its first difference from the second and raised by one there, if a byte is free between the two, else unchanged; a changed string lies strictly between the two |
| Separators.FindShortSuccessor | HolyWater-Test/Pods/leveldb-library/util/comparator.cc:52-64 | for any string: cut after its first byte that is not 0xff, which is raised by one; unchanged exactly when every byte is 0xff; never before the key |
| Separators.InternalSeparator | HolyWater-Test/Pods/leveldb-library/db/dbformat.cc:69-86 | the short separator of the user keys under the seek tag exactly when it is shorter and larger than the first, else the first key itself; in the order it lies between the two |
| Separators.InternalSuccessor | HolyWater-Test/Pods/leveldb-library/db/dbformat.cc:88-101 | the short successor of the user key under the seek tag exactly when it is shorter and larger, else the key itself |
| MemTable.BeforeIsLess | HolyWater-Test/Pods/leveldb-library/db/memtable.cc:28-34 | the comparator on length-prefixed encodings is the internal-key order, whatever follows the keys |
| MemTable.MemTable.Add | HolyWater-Test/Pods/leveldb-library/db/memtable.cc:75-98 | the encoded entry goes to its place; the table holds exactly one entry more and stays in key order |
| MemTable.MemTable.Get | HolyWater-Test/Pods/leveldb-library/db/memtable.cc:100-134 | found, deleted or absent, as the newest entry of the user key that the snapshot can see says |
| MemTable.SeekAnswers | HolyWater-Test/Pods/leveldb-library/db/memtable.cc:100-114 | the first entry at or after the lookup key decides the read if it is of the user key, and otherwise nothing does; the sequence number needs no check |
| Versions.FindFile | HolyWater-Test/Pods/leveldb-library/db/version_set.cc:88-106 | the first file of a sorted level whose largest key is at or after the key |
| Versions.SomeFileOverlapsRange | HolyWater-Test/Pods/leveldb-library/db/version_set.cc:122-157 | true exactly when some file meets the user-key range, by scan or by bisection |
| Versions.Lookup | HolyWater-Test/Pods/leveldb-library/db/version_set.cc:256-276 | seeking the lookup key in a sorted run gives its newest visible entry of the user key, or none |
| Versions.FilesToSearch | HolyWater-Test/Pods/leveldb-library/db/version_set.cc:347-382 | a file that is not searched holds nothing visible, or only older data than the one file that answers; files come newest first |
| Versions.LaterNeedsFirst | HolyWater-Test/Pods/leveldb-library/db/version_set.cc:366-381 | below level 0 one file is enough: a later file can answer only if the first one does |
| Versions.EarlierIsNewer | HolyWater-Test/Pods/leveldb-library/db/version_set.cc:366-381 | a user key that spans two files of a sorted level is newer in the first |
| Versions.SearchLevel | HolyWater-Test/Pods/leveldb-library/db/version_set.cc:347-418 | the search of a level gives the newest visible entry of the level |
| Versions.Get | HolyWater-Test/Pods/leveldb-library/db/version_set.cc:326-421 | the search stops at the first hit, which is the newest visible entry of the whole version |
| Versions.ShallowHitIsNewest | HolyWater-Test/Pods/leveldb-library/db/version_set.cc:338-343 | when shallower levels have nothing, the newest of this level is the newest of the version |
| Builder.LevelState.Apply | HolyWater-Test/Pods/leveldb-library/db/version_set.cc:650-692 | deletions are remembered, then additions, which undo the deletion of the same number; the invariant says, for any edits, what is added and what is deleted at the end |
| Builder.InsertBySmallest | HolyWater-Test/Pods/leveldb-library/db/version_set.cc:593-607 | a std::set under this order takes in a file unless it has one of the same smallest key and number |
| Builder.LevelState.SaveTo | HolyWater-Test/Pods/leveldb-library/db/version_set.cc:695-739 | the saved list is exactly what survives, in order, whatever was added; no place is taken twice exactly when no surviving base file shares smallest key and number with an added one |
| Builder.LevelState.AddBaseFiles | HolyWater-Test/Pods/leveldb-library/db/version_set.cc:708-721 | moves over exactly the base files not after the next added file, in order, without the deleted ones |
| Builder.LogAndApply | HolyWater-Test/Pods/leveldb-library/db/version_set.cc:816-821 | one edit on the current list: what a builder for it saves, on any input; this is what the edit asks for exactly when a condition on the edit holds |
| Builder.Recover | HolyWater-Test/Pods/leveldb-library/db/version_set.cc:924-992 | one builder over all edits: what it saves, on any input; this is the edits replayed exactly when no file comes back and none is shadowed |
| Builder.DoubleAddKeepsDeletedFile | HolyWater-Test/Pods/leveldb-library/db/version_set.cc:689-690 | the failing case: a number deleted and added again, for another file, in one builder brings the old file back, while step by step it is gone |
| Edits.SurvivorsAreWalked | HolyWater-Test/Pods/leveldb-library/db/version_set.cc:650-739 | for all edits and bases: one builder over all edits saves what going step by step gives, be it the edits as asked or a builder for each, exactly when no held file whose number is dropped and later added again, to stay, fails to be brought again, and no brought file that stays is shadowed by an earlier one |
| Edits.WalkStays | HolyWater-Test/Pods/leveldb-library/db/version_set.cc:650-739 | a file is on the list after all steps exactly when it was there or was brought and no later step drops its number |
| Edits.SavedAsAsked | HolyWater-Test/Pods/leveldb-library/db/version_set.cc:816-821 | for one edit the condition is: each listed file whose number it both deletes and adds is itself added, and each added file is listed or the first of its place |
| Edits.NamedNumbersAgree | HolyWater-Test/Pods/leveldb-library/db/version_set.cc:650-739 | when a file number names one file, all ways to apply the edits agree, even if a file is deleted and added again |
| Edits.ArrangementUnique | HolyWater-Test/Pods/leveldb-library/db/version_set.cc:593-605 | a set of files has only one ordered list |
| Edits.RecoveryEqualsHistory | HolyWater-Test/Pods/leveldb-library/db/version_set.cc:816-821 | saving after every edit ends with the files of history, in order; when no number is added twice, with the ordered list of all edits replayed |
| Edits.RecoveredListIsCurrent | HolyWater-Test/Pods/leveldb-library/db/version_set.cc:924-992 | the recovered list and the last list of normal operation hold the same files, and if ordered are the same sequence, exactly when no file comes back and none is shadowed; they are the same when no number is added twice |
| Edits.SnapshotRebuilds | HolyWater-Test/Pods/leveldb-library/db/version_set.cc:1088-1116 | replaying a snapshot record from nothing rebuilds the ordered list it was written from |
| Inputs.GetOverlappingInputs | HolyWater-Test/Pods/leveldb-library/db/version_set.cc:519-559 | below level 0 the files that meet the range; at level 0 those that meet the least range that contains the request and is closed under overlap; the restarts end |
| Inputs.GrowthIsForced | HolyWater-Test/Pods/leveldb-library/db/version_set.cc:543-556 | every closed range around the request contains each range the search grows to |
| Inputs.GetRange | HolyWater-Test/Pods/leveldb-library/db/version_set.cc:1205-1224 | smallest and largest key of the files, both attained |
| Inputs.FindSmallestBoundaryFile | HolyWater-Test/Pods/leveldb-library/db/version_set.cc:1344-1362 | the first file that goes on with the user key after the given key, or none exists |
| Inputs.AddBoundaryInputs | HolyWater-Test/Pods/leveldb-library/db/version_set.cc:1378-1401 | adds a chain of boundary files, after which no file of the level goes on with the last user key; it ends |
| Inputs.BoundaryExtendsRun | HolyWater-Test/Pods/leveldb-library/db/version_set.cc:1364-1374 | on a sorted level the added files are the ones right after the run, each starting with the user key at which the one before ends |
| Inputs.OverlappingIsRun | HolyWater-Test/Pods/leveldb-library/db/version_set.cc:519-559 | on a sorted level the files that meet a range are consecutive |
| Inputs.ClosedHasNoBoundary | HolyWater-Test/Pods/leveldb-library/db/version_set.cc:1407-1407 | at level 0 a closed selection has no boundary files |
| Inputs.ClosedLeavesNoOlder | HolyWater-Test/Pods/leveldb-library/db/version_set.cc:1472-1475 | a closed selection of level 0 leaves out no older data of its user keys |
| Inputs.RunLeavesNoOlder | HolyWater-Test/Pods/leveldb-library/db/version_set.cc:1369-1374 | a boundary-closed run leaves out no older data of its user keys |
| Inputs.SetupOtherInputs | HolyWater-Test/Pods/leveldb-library/db/version_set.cc:1403-1447 | the pick and its boundary files, the files of the next level that meet them, and the first level grown by all it can reach exactly when it does grow, the whole stays under the limit and the next level's files stay the same; the next pointer is the largest key |
| Inputs.GrowthIsFree | HolyWater-Test/Pods/leveldb-library/db/version_set.cc:1417-1445 | growing the first level never changes the files taken of the next one |
| Inputs.IsTrivialMove | HolyWater-Test/Pods/leveldb-library/db/version_set.cc:1515-1523 | a lone input is moved exactly when the next level gives none and the files two levels down that meet it hold no more than the limit |
| Inputs.PickCompaction | HolyWater-Test/Pods/leveldb-library/db/version_set.cc:1270-1317 | a level with too much data comes before a file with too many seeks, and none without either; below level 0 exactly the first file past the compaction pointer, or the sought file; at level 0 the files of the least closed range around that file |
| Inputs.CompactRange | HolyWater-Test/Pods/leveldb-library/db/version_set.cc:1464-1487 | a manual compaction takes the files that meet the range, at level 0 all, below it the shortest run of them from the first that reaches the limit; it takes nothing exactly when nothing meets the range |
| Inputs.PickLevelForMemTableOutput | HolyWater-Test/Pods/leveldb-library/db/version_set.cc:491-516 | the level the rules fix: each step down is into a level of which no file meets the table, with no more than the limit of overlapping data two levels down, never below level 2, and it stops only where the next step is not allowed |
| Inputs.OneFlushLevel | HolyWater-Test/Pods/leveldb-library/db/version_set.cc:491-516 | for all versions and ranges there is only one such level |
| Compaction.CompactionState.IsBaseLevelForKey | HolyWater-Test/Pods/leveldb-library/db/version_set.cc:1533-1552 | with pointers that only move forward, exact for nondecreasing user keys |
| Compaction.CompactionState.DoCompactionWork | HolyWater-Test/Pods/leveldb-library/db/db_impl.cc:890-999 | the outputs are the input entries that neither drop rule takes, in order; a new table starts between two of them exactly when the table is full after the first, or an entry behind it up to the second asks for a cut |
| Compaction.KeptExactly | HolyWater-Test/Pods/leveldb-library/db/db_impl.cc:946-960 | said of the entries alone, what is kept: all but those under a newer entry of the user key that every snapshot sees, and deletions that every snapshot sees and that have nothing below to hide |
| Compaction.OlderIsDropped | HolyWater-Test/Pods/leveldb-library/db/db_impl.cc:946-948 | after an entry every snapshot can do with, all older entries of the user key go |
| Compaction.NewestNotHidden | HolyWater-Test/Pods/leveldb-library/db/db_impl.cc:946-948 | the entry some live snapshot reads is never dropped by rule (A) |
| Compaction.DropRulePreservesReads | HolyWater-Test/Pods/leveldb-library/db/db_impl.cc:946-960 | no reader at or after the smallest snapshot notices the compaction of a user key that is not resurrected |
| Compaction.ResurrectionChangesRead | HolyWater-Test/Pods/leveldb-library/db/db_impl.cc:949-959 | a deletion dropped while an older value stays underneath does change a read |
| Compaction.DropRuleExact | HolyWater-Test/Pods/leveldb-library/db/db_impl.cc:946-960 | the drop rules are safe for a user key exactly when they do not resurrect it |
| Compaction.ReadsUnderNewerData | HolyWater-Test/Pods/leveldb-library/db/version_set.cc:338-340 | newer data on top of two stacks that read alike leaves them reading alike |
| Store.CompactionKeepsVersion | HolyWater-Test/Pods/leveldb-library/db/db_impl.cc:860-876 | installing a compaction keeps levels sorted and disjoint and shallower data newer |
| Store.NextLevelApart | HolyWater-Test/Pods/leveldb-library/db/version_set.cc:723-736 | the outputs and the files left in the next level are disjoint |
| Store.EntriesSplit | HolyWater-Test/Pods/leveldb-library/db/db_impl.cc:860-876 | before and after, a version is what lies over the inputs, the inputs or outputs, and what lies under them |
| Store.OverAboveRest | HolyWater-Test/Pods/leveldb-library/db/version_set.cc:1364-1374 | what is left over the inputs holds only newer data than inputs and what lies under them |
| Store.InputsAboveUnder | HolyWater-Test/Pods/leveldb-library/db/version_set.cc:1403-1411 | the inputs hold only newer data than what lies under them |
| Store.CompactionKeepsReads | HolyWater-Test/Pods/leveldb-library/db/db_impl.cc:952-958 | under any newer data, a compaction changes no read from the smallest snapshot on, for a user key it does not resurrect |
| Store.CompactionReadsExact | HolyWater-Test/Pods/leveldb-library/db/db_impl.cc:949-959 | for the store as a whole: no read of a user key from the smallest snapshot on changes exactly when the key is not resurrected or newer data of it, in the memtables or above the inputs, is visible at that snapshot |
| Store.BoundaryClosedIsSafe | HolyWater-Test/Pods/leveldb-library/db/version_set.cc:1407-1411 | nothing is resurrected when no file left out of the next level goes on with the user key at which an input of that level ends |
| Steps.FlushKeepsVersion | HolyWater-Test/Pods/leveldb-library/db/db_impl.cc:515-526 | installing a flushed table keeps the version valid and adds exactly its entries |
| Steps.KeptIsSorted | HolyWater-Test/Pods/leveldb-library/db/db_impl.cc:974-996 | what is kept of a sorted input is sorted |
| Steps.CutsAreApart | HolyWater-Test/Pods/leveldb-library/db/db_impl.cc:920-927 | tables cut from a sorted run are sorted, disjoint and lose nothing |
| Steps.MakeInputIterator | HolyWater-Test/Pods/leveldb-library/db/version_set.cc:1237-1268 | all entries of the inputs in key order |
| Steps.CompactionShrinks | HolyWater-Test/Pods/leveldb-library/db/db_impl.cc:868-875 | a compaction adds no entry to the version, and a trivial move keeps them all |
| Steps.NumbersStayUnique | HolyWater-Test/Pods/leveldb-library/db/db_impl.cc:868-875 | file numbers stay unique over all levels |
| History.AppendKeepsReads | HolyWater-Test/Pods/leveldb-library/db/write_batch.cc:116-137 | one more operation under the next sequence number leaves every older snapshot reading as before, and the newest reading the map |
| Database.Database.Get | HolyWater-Test/Pods/leveldb-library/db/db_impl.cc:1100-1145 | the value is that of the newest entry present that the snapshot can see; and, unless a compaction resurrected a key, what the map held at that point of history |
| Database.Database.Write | HolyWater-Test/Pods/leveldb-library/db/db_impl.cc:1202-1237 | each operation of a batch takes the next sequence number; all invariants stay |
| Database.Database.SwitchMemTable | HolyWater-Test/Pods/leveldb-library/db/db_impl.cc:1345-1366 | the full memtable becomes the immutable one |
| Database.Database.CompactMemTable | HolyWater-Test/Pods/leveldb-library/db/db_impl.cc:535-566 | flushing keeps every entry and every invariant: the memtable's table, and no other change, goes in at the level the rules fix; an empty memtable installs nothing |
| Database.Database.CompactLevel | HolyWater-Test/Pods/leveldb-library/db/db_impl.cc:688-744 | a trivial move or compaction keeps the version valid; inputs, move, entries kept and file numbers are those the rules fix; the store stays intact exactly when no read from the oldest snapshot on changed, which holds if no left-out file of the next level shares a boundary key |
| Database.RunCompaction | HolyWater-Test/Pods/leveldb-library/db/db_impl.cc:688-744 | the inputs chosen, the move or merge made of them, and the levels and next file number after it; no entry is gained |
| Database.Database.GetSnapshot | HolyWater-Test/Pods/leveldb-library/db/db_impl.cc:1166-1169 | the snapshot is the last sequence number, put after all older ones |
| Database.Database.ReleaseSnapshot | HolyWater-Test/Pods/leveldb-library/db/db_impl.cc:1171-1174 | one snapshot leaves the list |
| Database.InstallCompactionResults | HolyWater-Test/Pods/leveldb-library/db/db_impl.cc:860-876 | the edits of a compaction install exactly its change, and lists stay ordered |
| Database.ClosedIsSafe | HolyWater-Test/Pods/leveldb-library/db/version_set.cc:1407-1411 | the condition a caller can check from file ranges rules out that any user key surfaces |
| Database.ReadsAfterCompaction | HolyWater-Test/Pods/leveldb-library/db/db_impl.cc:949-959 | a move changes no read, and a merge changes none exactly when no user key surfaces |
| Resurrection.LeftOutBoundaryLosesDeletion | HolyWater-Test/Pods/leveldb-library/db/version_set.cc:1407-1411 | a valid version and a selection the code makes, after which a deleted key is back: the next level is not extended at boundaries |
| Resurrection.ExampleIsSelected | HolyWater-Test/Pods/leveldb-library/db/version_set.cc:1403-1411 | the inputs of that example are the ones the selection produces |
| Resurrection.ExampleIsStore | HolyWater-Test/Pods/leveldb-library/db/version_set.cc:1403-1411 | a store that holds that version meets the whole invariant: levels ordered, numbers unique, every entry from history, and every read right before the compaction |
| Snapshots.SnapshotList.New | HolyWater-Test/Pods/leveldb-library/db/snapshot.h:57-70 | the new snapshot is last on the circular list |
| Snapshots.SnapshotList.Delete | HolyWater-Test/Pods/leveldb-library/db/snapshot.h:79-86 | exactly the given snapshot leaves the list |
| Snapshots.SnapshotList.Empty | HolyWater-Test/Pods/leveldb-library/db/snapshot.h:46-46 | the list is empty exactly when no snapshot is live |
| Snapshots.SnapshotList.Oldest | HolyWater-Test/Pods/leveldb-library/db/snapshot.h:47-50 | the oldest snapshot has the smallest sequence number of all live ones |
| Snapshots.SnapshotList.Newest | HolyWater-Test/Pods/leveldb-library/db/snapshot.h:51-54 | the newest snapshot has the largest sequence number of all live ones |
| DbIter.DBIter.Next | HolyWater-Test/Pods/leveldb-library/db/db_iter.cc:141-166 | to the next live user key at its newest visible value, in either direction of the scan, or past the end |
| DbIter.DBIter.FindNextUserEntry | HolyWater-Test/Pods/leveldb-library/db/db_iter.cc:168-198 | the least shown entry at or after a place, skipping deletions and what they hide |
| DbIter.DBIter.Prev | HolyWater-Test/Pods/leveldb-library/db/db_iter.cc:200-225 | to the previous live user key, or before the start |
| DbIter.DBIter.FindPrevUserEntry | HolyWater-Test/Pods/leveldb-library/db/db_iter.cc:227-267 | the greatest shown entry before a place, its value saved |
| DbIter.DBIter.Seek | HolyWater-Test/Pods/leveldb-library/db/db_iter.cc:269-281 | to the least live user key at or after the target |
| DbIter.DBIter.SeekToFirst | HolyWater-Test/Pods/leveldb-library/db/db_iter.cc:283-292 | to the first live user key |
| DbIter.DBIter.SeekToLast | HolyWater-Test/Pods/leveldb-library/db/db_iter.cc:294-299 | to the last live user key |
| DbIter.DBIter.Key | HolyWater-Test/Pods/leveldb-library/db/db_iter.cc:64-67 | the key of the shown entry, from the cursor or from the saved copy |
| DbIter.DBIter.Value | HolyWater-Test/Pods/leveldb-library/db/db_iter.cc:68-71 | the value of the shown entry, from the cursor or from the saved copy |
| DbIter.ShownIsNewest | HolyWater-Test/Pods/leveldb-library/db/db_iter.cc:168-198 | a shown entry is the newest visible one of its user key |
| DbIter.NewestIsShown | HolyWater-Test/Pods/leveldb-library/db/db_iter.cc:168-198 | every user key whose newest visible entry is a value is shown |
| DbIter.ShowsTheMap | HolyWater-Test/Pods/leveldb-library/db/db_impl.cc:1147-1157 | the shown entries are exactly the pairs of the map at the snapshot, each key once, in order |
| DbIter.NeighboursInTheMap | HolyWater-Test/Pods/leveldb-library/db/db_iter.cc:141-225 | between two neighbouring shown entries the map has no key |
| Merger.MergingIterator.Seek | HolyWater-Test/Pods/leveldb-library/table/merger.cc:47-53 | to the first entry of the sorted union at or after the target |
| Merger.MergingIterator.SeekToFirst | HolyWater-Test/Pods/leveldb-library/table/merger.cc:31-37 | to the first entry of the union |
| Merger.MergingIterator.SeekToLast | HolyWater-Test/Pods/leveldb-library/table/merger.cc:39-45 | to the last entry of the union |
| Merger.MergingIterator.Next | HolyWater-Test/Pods/leveldb-library/table/merger.cc:55-79 | one place on in the union, after a change of direction too |
| Merger.MergingIterator.Prev | HolyWater-Test/Pods/leveldb-library/table/merger.cc:81-108 | one place back in the union, after a change of direction too |
| Merger.MergingIterator.FindSmallest | HolyWater-Test/Pods/leveldb-library/table/merger.cc:148-161 | of children at a common front of the union, the smallest is the next entry |
| Merger.MergingIterator.FindLargest | HolyWater-Test/Pods/leveldb-library/table/merger.cc:163-176 | of children behind a common front, the largest is the previous entry |
| Merger.TurnedForward | HolyWater-Test/Pods/leveldb-library/table/merger.cc:58-75 | repositioning the other children for a forward step puts all of them at one front |
| Merger.TurnedBackward | HolyWater-Test/Pods/leveldb-library/table/merger.cc:84-104 | repositioning the other children for a backward step puts all of them behind one front |
| Merger.MergeExists | HolyWater-Test/Pods/leveldb-library/table/merger.cc:14-30 | runs without a common key have a sorted union |
| Block.BlockBuilder.Add | HolyWater-Test/Pods/leveldb-library/table/block_builder.cc:72-106 | adds one entry with the longest shared prefix, or a restart point after every full interval |
| Block.BlockBuilder.Finish | HolyWater-Test/Pods/leveldb-library/table/block_builder.cc:62-70 | entries, restart offsets and their number |
| Block.BuildOne | HolyWater-Test/Pods/leveldb-library/table/block_builder.cc:72-106 | one more entry keeps the layout: entries decode in turn, restarts are full keys at every interval |
| Block.SharedLength | HolyWater-Test/Pods/leveldb-library/table/block_builder.cc:78-84 | the longest common prefix |
| Block.RestartInArray | HolyWater-Test/Pods/leveldb-library/table/block_builder.cc:62-70 | restart offset number r stands at its place in the array |
| BlockIter.FinishedOpens | HolyWater-Test/Pods/leveldb-library/table/block.cc:24-39 | a finished block opens with its own restart offset, number and points |
| BlockIter.DecodeEntry | HolyWater-Test/Pods/leveldb-library/table/block.cc:54-74 | the fast path for three one-byte lengths gives what the varint decoders give |
| BlockIter.EntryParses | HolyWater-Test/Pods/leveldb-library/table/block.cc:224-251 | decoding entry i after entry i - 1, or at a restart point, gives its key and value |
| BlockIter.Iter.ParseNextKey | HolyWater-Test/Pods/leveldb-library/table/block.cc:224-251 | steps onto the next entry and keeps the restart index right |
| BlockIter.Iter.Next | HolyWater-Test/Pods/leveldb-library/table/block.cc:137-140 | one place on in the list that was built |
| BlockIter.Iter.Prev | HolyWater-Test/Pods/leveldb-library/table/block.cc:142-161 | one place back in the list that was built |
| BlockIter.Iter.Seek | HolyWater-Test/Pods/leveldb-library/table/block.cc:163-201 | to the first key at or after the target |
| BlockIter.Iter.FindRestart | HolyWater-Test/Pods/leveldb-library/table/block.cc:163-193 | the bisection finds a restart point with nothing at or after the target before it |
| BlockIter.Iter.SeekToFirst | HolyWater-Test/Pods/leveldb-library/table/block.cc:203-206 | to the first entry |
| BlockIter.Iter.SeekToLast | HolyWater-Test/Pods/leveldb-library/table/block.cc:208-213 | to the last entry |
| BlockIter.WriteBlock | HolyWater-Test/Pods/leveldb-library/table/block_builder.cc:62-106 | any increasing list that fits, under any interval, makes a block with that list as its layout |
| BlockIter.ReadBlock | HolyWater-Test/Pods/leveldb-library/table/block.cc:137-251 | reading the block from first to last gives back the list |
| Table.IndexBounds | HolyWater-Test/Pods/leveldb-library/table/table_builder.cc:103-108 | index keys are at or after their blocks, before all later blocks, and strictly increase |
| Table.SeekLandsInBlock | HolyWater-Test/Pods/leveldb-library/table/two_level_iterator.cc:82-87 | a search in the block the index leads to is the search in the whole table |
| Table.InternalGet | HolyWater-Test/Pods/leveldb-library/table/table.cc:216-244 | looking in one block, and in none if the filter block reader rules the key out, finds the table's first entry at or after the key whenever that has the key's user key |
| Table.NextBlockIsAnother | HolyWater-Test/Pods/leveldb-library/table/table.cc:216-244 | if the block has nothing at or after the key, the next entry is of a later user key |
| TableBuilding.TableBuilder.Add | HolyWater-Test/Pods/leveldb-library/table/table_builder.cc:94-123 | adds one entry, and its user key to the filter under the offset of its block; the block ends exactly when its size reaches the limit |
| TableBuilding.TableBuilder.AddSeparator | HolyWater-Test/Pods/leveldb-library/table/table_builder.cc:102-109 | the index entry of the last block goes in with its handle and, as its key, the short separator of that block's last key and the new one |
| TableBuilding.TableBuilder.Flush | HolyWater-Test/Pods/leveldb-library/table/table_builder.cc:125-139 | a block with entries goes to the file at its offset, the next one starts five bytes after it, the filter moves on; all entries are kept, and an empty block changes nothing |
| TableBuilding.TableBuilder.Finish | HolyWater-Test/Pods/leveldb-library/table/table_builder.cc:198-253 | the finished table holds exactly the added entries, sorted, under short separators as readers need them, and its filter block rules out none of them |
| TableBuilding.FinishedAdmits | HolyWater-Test/Pods/leveldb-library/table/table_builder.cc:111-136 | the finished filter block admits every user key of a block at the block's offset |
| TwoLevel.TwoLevelIterator.Seek | HolyWater-Test/Pods/leveldb-library/table/two_level_iterator.cc:82-87 | to the first entry at or after the target of all blocks in a row |
| TwoLevel.TwoLevelIterator.SeekToFirst | HolyWater-Test/Pods/leveldb-library/table/two_level_iterator.cc:89-94 | to the first entry of all blocks |
| TwoLevel.TwoLevelIterator.SeekToLast | HolyWater-Test/Pods/leveldb-library/table/two_level_iterator.cc:96-101 | to the last entry of all blocks |
| TwoLevel.TwoLevelIterator.Next | HolyWater-Test/Pods/leveldb-library/table/two_level_iterator.cc:103-107 | one place on, over empty blocks |
| TwoLevel.TwoLevelIterator.Prev | HolyWater-Test/Pods/leveldb-library/table/two_level_iterator.cc:109-113 | one place back, over empty blocks |
| TwoLevel.TwoLevelIterator.SkipEmptyDataBlocksForward | HolyWater-Test/Pods/leveldb-library/table/two_level_iterator.cc:115-126 | to the next entry in a later block |
| TwoLevel.TwoLevelIterator.SkipEmptyDataBlocksBackward | HolyWater-Test/Pods/leveldb-library/table/two_level_iterator.cc:128-139 | to the last entry in an earlier block |
| TwoLevel.LevelIsTwoLevel | HolyWater-Test/Pods/leveldb-library/db/version_set.cc:159-228 | the files of a sorted level under their largest keys are blocks under an index |
| Bloom.BloomFilterPolicy.CreateFilter | HolyWater-Test/Pods/leveldb-library/util/bloom.cc:28-54 | appends a filter in which exactly the probes of the keys are set, of one byte for every eight bits asked for, rounded up and at least eight, and the number of probes |
| Bloom.BloomFilterPolicy.constructor | HolyWater-Test/Pods/leveldb-library/util/bloom.cc:18-24 | the number of probes is 0.69 times the bits for each key, rounded down, from 1 to 30 |
| Bloom.BloomFilterPolicy.SetProbes | HolyWater-Test/Pods/leveldb-library/util/bloom.cc:43-52 | sets exactly the wrapping double-hashing probes of one key |
| Bloom.BloomFilterPolicy.KeyMayMatch | HolyWater-Test/Pods/leveldb-library/util/bloom.cc:56-80 | true exactly when all probes are set, or the filter uses an encoding for the future |
| Bloom.KeysMatch | HolyWater-Test/Pods/leveldb-library/util/bloom.cc:28-80 | no false negatives |
| Bloom.ProbeAt | HolyWater-Test/Pods/leveldb-library/util/bloom.cc:45-51 | probe j of a key is its hash plus j times the rotation, wrapped at 32 bits, modulo the number of bits |
| Bloom.DeltaRotates | HolyWater-Test/Pods/leveldb-library/util/bloom.cc:46-46 | the step between probes is the hash rotated, so turning it back gives the hash |
| Bloom.BitHasWeight | HolyWater-Test/Pods/leveldb-library/util/bloom.cc:49-50 | bit i of a byte is the one of weight 2 to the i |
| Bloom.OtherBitsStay | HolyWater-Test/Pods/leveldb-library/util/bloom.cc:50-50 | setting one bit changes no other |
| FilterBlock.FilterBlockBuilder.StartBlock | HolyWater-Test/Pods/leveldb-library/table/filter_block.cc:21-27 | closes all windows before the offset |
| FilterBlock.FilterBlockBuilder.AddKey | HolyWater-Test/Pods/leveldb-library/table/filter_block.cc:29-33 | the key belongs to the window of the current block |
| FilterBlock.FilterBlockBuilder.GenerateFilter | HolyWater-Test/Pods/leveldb-library/table/filter_block.cc:51-75 | closes a window with the filter of its keys, empty if it has none |
| FilterBlock.FilterBlockBuilder.Finish | HolyWater-Test/Pods/leveldb-library/table/filter_block.cc:35-49 | the result is the filters of all windows with their offsets, up to the last window that has keys or a block; a reader of it finds every added key at its block's offset |
| FilterBlock.FilterBlockReader.KeyMayMatch | HolyWater-Test/Pods/leveldb-library/table/filter_block.cc:90-104 | what any contents, damaged or not, answer |
| FilterBlock.AddedMatches | HolyWater-Test/Pods/leveldb-library/table/filter_block.cc:21-104 | no false negatives from the builder's first block to the reader's answer |
| FilterBlock.WindowAnswers | HolyWater-Test/Pods/leveldb-library/table/filter_block.cc:90-104 | the reader's answer for any block and key: no if the window of 2048 bytes has no keys, else what that window's filter says |
| Coding.FixedRoundTrip | HolyWater-Test/Pods/leveldb-library/util/coding.cc:9-33 | a number survives its fixed encoding of n bytes |
| Coding.MaskRoundTrip | HolyWater-Test/Pods/leveldb-library/util/crc32c.h:29-38 | unmasking a masked checksum gives it back |
| Coding.EncodeVarint32 | HolyWater-Test/Pods/leveldb-library/util/coding.cc:47-73 | the five unrolled cases are the varint, in one to five bytes |
| Coding.PutVarint32 | HolyWater-Test/Pods/leveldb-library/util/coding.cc:75-79 | appends the 32-bit varint |
| Coding.PutVarint64 | HolyWater-Test/Pods/leveldb-library/util/coding.cc:81-96 | appends the varint |
| Coding.VarintLength | HolyWater-Test/Pods/leveldb-library/util/coding.cc:103-110 | the length of the varint |
| Coding.GetVarintPtr | HolyWater-Test/Pods/leveldb-library/util/coding.cc:112-169 | the shift loop takes what the number in the input says, at most so many bytes of it, cut to the width |
| Coding.Varint32RoundTrip | HolyWater-Test/Pods/leveldb-library/util/coding.cc:75-140 | a 32-bit varint is taken exactly, before any suffix |
| Coding.Varint64RoundTrip | HolyWater-Test/Pods/leveldb-library/util/coding.cc:81-169 | a 64-bit varint is taken exactly, before any suffix, in at most ten bytes |
| Coding.LengthPrefixedRoundTrip | HolyWater-Test/Pods/leveldb-library/util/coding.cc:98-190 | a length-prefixed string is taken exactly, before any suffix |
| Log.Writer.AddRecord | HolyWater-Test/Pods/leveldb-library/db/log_writer.cc:34-80 | appends the fragments and trailers of the record, which depend on the file length and the record alone |
| Log.Writer.Reopen | HolyWater-Test/Pods/leveldb-library/db/log_writer.cc:27-30 | a writer on a file with contents continues as the first one would |
| Log.Writer.EmitPhysicalRecord | HolyWater-Test/Pods/leveldb-library/db/log_writer.cc:82-108 | one physical record with masked checksum, length and type |
| Log.Reader.ReadPhysicalRecord | HolyWater-Test/Pods/leveldb-library/db/log_reader.cc:189-271 | on any file, what the physical record at the current place is: a fragment, damage with its drop, or the end; `LogDamage` says which in bytes |
| Log.Reader.ReadRecord | HolyWater-Test/Pods/leveldb-library/db/log_reader.cc:56-174 | on any file, the next logical record and the drops reported |
| Log.EmittedReadsBack | HolyWater-Test/Pods/leveldb-library/db/log_reader.cc:56-174 | one record is read back if the cut is after it, and reads as the end without damage if not |
| Log.CutLogReadsBack | HolyWater-Test/Pods/leveldb-library/db/log_reader.cc:189-232 | on any prefix of a log, exactly the records wholly inside are read and no corruption is reported |
| Log.LogReadsBack | HolyWater-Test/Pods/leveldb-library/db/log_reader.cc:56-271 | the whole log reads back as the whole list of records |
| Log.WriteInTwoRuns | HolyWater-Test/Pods/leveldb-library/db/log_writer.cc:27-80 | two writers in turn write the log of both lists |
| Log.ReadRecords | HolyWater-Test/Pods/leveldb-library/db/log_reader.cc:56-174 | the client's loop returns all records and all drops |
| LogDamage.TakenIsWritten | HolyWater-Test/Pods/leveldb-library/db/log_reader.cc:189-271 | on any file, a physical record is taken exactly when its bytes are what a writer would write for its type and payload, within its block; only an empty one of type zero is passed over |
| LogDamage.RefusedInBytes | HolyWater-Test/Pods/leveldb-library/db/log_reader.cc:218-258 | anything else takes the rest of its block with it and is reported with so many bytes, or not at all if it is empty and of type zero; what the end of the file cuts off is the end |
| LogDamage.AllReadIsWritten | HolyWater-Test/Pods/leveldb-library/db/log_reader.cc:56-174 | whatever the file, each record that is read stands in it, whole or as a first, middle and last pieces in a row, each with the checksum a writer would give it |
| LogDamage.DamageStaysLocal | HolyWater-Test/Pods/leveldb-library/db/log_reader.cc:56-271 | for any log and any damage to a stretch of it: the records that end before the stretch are read first, and those that start behind its last block are read last |
| LogDamage.ToBlockEnd | HolyWater-Test/Pods/leveldb-library/db/log_reader.cc:189-271 | from any place and in any state, over any bytes, the reader comes to the end of the block |
| LogDamage.RecordIsRead | HolyWater-Test/Pods/leveldb-library/db/log_reader.cc:92-165 | a whole record behind the damage is read in whatever state the damage has left the reader |
| WriteBatch.WriteBatch.Put | HolyWater-Test/Pods/leveldb-library/db/write_batch.cc:98-103 | one put more, and the count with it |
| WriteBatch.WriteBatch.Delete | HolyWater-Test/Pods/leveldb-library/db/write_batch.cc:105-109 | one deletion more, and the count with it |
| WriteBatch.WriteBatch.Append | HolyWater-Test/Pods/leveldb-library/db/write_batch.cc:144-148 | the updates of both batches in order, under the count of both |
| WriteBatch.WriteBatch.SetSequence | HolyWater-Test/Pods/leveldb-library/db/write_batch.cc:94-96 | the sequence number, and nothing else, is set |
| WriteBatch.WriteBatch.Iterate | HolyWater-Test/Pods/leveldb-library/db/write_batch.cc:42-80 | on any representation, the updates handed on and the error found |
| WriteBatch.EncodedReplays | HolyWater-Test/Pods/leveldb-library/db/write_batch.cc:42-80 | encoded updates are replayed one by one, whatever follows them |
| WriteBatch.BatchReplays | HolyWater-Test/Pods/leveldb-library/db/write_batch.cc:42-109 | a batch replays exactly its updates, with matching count |
| WriteBatch.InsertInto | HolyWater-Test/Pods/leveldb-library/db/write_batch.cc:116-137 | update i goes in under the batch's sequence number plus i; of a malformed batch those before the first error, which is returned |
| VersionEdit.FieldParses | HolyWater-Test/Pods/leveldb-library/db/version_edit.cc:41-205 | every tagged field is parsed back, before any suffix |
| VersionEdit.EditRoundTrip | HolyWater-Test/Pods/leveldb-library/db/version_edit.cc:41-205 | decoding an encoded edit restores every field, set and list, except that compaction pointers are added to those already there |
| VersionEdit.FreshObjectNeeded | HolyWater-Test/Pods/leveldb-library/db/version_edit.cc:26-39 | the decoded edit is the encoded one exactly when the object had no compaction pointers |
| VersionEdit.VersionEdit.EncodeTo | HolyWater-Test/Pods/leveldb-library/db/version_edit.cc:41-85 | appends the tagged fields in order |
| VersionEdit.VersionEdit.DecodeFrom | HolyWater-Test/Pods/leveldb-library/db/version_edit.cc:107-205 | on any input, all fields up to the first error, and the error |
| VersionEdit.VersionEdit.Clear | HolyWater-Test/Pods/leveldb-library/db/version_edit.cc:26-39 | forgets everything but the compaction pointers |
| Formats.VarintDigit | HolyWater-Test/Pods/leveldb-library/util/coding.cc:81-96 | byte i of a varint is the seven bits from bit 7 i on, with the high bit on all but the last |
| Formats.VarintLengthIs | HolyWater-Test/Pods/leveldb-library/util/coding.cc:103-110 | a varint takes at most n bytes exactly when the number has at most 7 n bits, for any positive n |
| Formats.FixedDigit | HolyWater-Test/Pods/leveldb-library/util/coding.cc:9-33 | byte i of a fixed number is the eight bits from bit 8 i on |
| Formats.MaskInNumbers | HolyWater-Test/Pods/leveldb-library/util/crc32c.h:22-38 | a checksum is masked by rotating it right by 15 bits and adding 2726488792, in 32 bits |
| Formats.PhysicalInBytes | HolyWater-Test/Pods/leveldb-library/db/log_format.h:14-30 | a record in bytes: masked checksum of type and payload in four, length in two, type in one (1 whole, 2 first, 3 middle, 4 last), and the payload |
| Formats.FragmentsInBytes | HolyWater-Test/Pods/leveldb-library/db/log_writer.cc:34-80 | where the next fragment of a record starts and how long it is: blocks of 32768 bytes, up to six zeros at the end of one |
| Formats.FieldInBytes | HolyWater-Test/Pods/leveldb-library/db/version_edit.cc:14-85 | every field of a version edit in bytes, under the tags 1 to 7 and 9 |
| Formats.OtherTagsRefused | HolyWater-Test/Pods/leveldb-library/db/version_edit.cc:96-205 | any other tag, and a level of seven or more, is refused |
| Formats.UpdateInBytes | HolyWater-Test/Pods/leveldb-library/db/write_batch.cc:98-109 | a put is a 1, key and value, a deletion a 0 and the key |
| Formats.BatchInBytes | HolyWater-Test/Pods/leveldb-library/db/write_batch.cc:5-28 | a batch is eight bytes of sequence number, four of count, and the updates |
| Formats.InternalKeyInBytes | HolyWater-Test/Pods/leveldb-library/db/dbformat.cc:14-23 | an internal key is the user key, a byte of type (0 deletion, 1 value) and seven of sequence number |
| Formats.InternalKeyParses | HolyWater-Test/Pods/leveldb-library/db/dbformat.h:165-175 | any string of eight bytes or more whose type byte is 0 or 1 is parsed so, and no other |
| Formats.EntryInBytes | HolyWater-Test/Pods/leveldb-library/db/memtable.cc:75-98 | a memtable entry in bytes, and the key that a lookup asks for |
| Formats.BlockEntryInBytes | HolyWater-Test/Pods/leveldb-library/table/block_builder.cc:18-24 | an entry of a block with one-byte lengths: shared, not shared, value length, rest of the key, value |
| Formats.BlockEndInBytes | HolyWater-Test/Pods/leveldb-library/table/block_builder.cc:62-70 | a block ends with four bytes for each restart point and four for their number |
| Formats.FilterEndInBytes | HolyWater-Test/Pods/leveldb-library/table/filter_block.cc:35-49 | a filter block ends with four bytes for each offset, four for where those start, and an 11 |
| Writers.BuildBatchGroup | HolyWater-Test/Pods/leveldb-library/db/db_impl.cc:1260-1306 | the longest run of writers that may all join the leader, its batch the batches in queue order; and in bytes: behind a leader of at most 128 KiB the group adds at most 128 KiB, behind a larger one it is the leader or at most 1 MiB, and a next writer was left out only because it breaks that or would sync |
| Writers.GroupIsBounded | HolyWater-Test/Pods/leveldb-library/db/db_impl.cc:1267-1303 | the joined batch adds at most 131072 bytes to a leader of at most so many, and behind a larger leader is the leader's own or at most 1048576 bytes; no sync writer is behind a leader that does not sync |
| Writers.SizeInBytes | HolyWater-Test/Pods/leveldb-library/db/db_impl.cc:1267-1288 | the size that is compared is that of all updates in bytes and a header of 12 for each batch |
| Writers.IsGroupInBytes | HolyWater-Test/Pods/leveldb-library/db/db_impl.cc:1267-1290 | for every queue, a group obeys the bounds in bytes, and the writer after it would break them or the sync rule |
| Writers.WriteQueue.Enter | HolyWater-Test/Pods/leveldb-library/db/db_impl.cc:1185-1198 | a writer joins the end of the queue |
| Writers.WriteQueue.Lead | HolyWater-Test/Pods/leveldb-library/db/db_impl.cc:1200-1207 | the writer at the front builds a group of the queue's front |
| Writers.WriteQueue.WriteGroup | HolyWater-Test/Pods/leveldb-library/db/db_impl.cc:1209-1233 | log, sync if the leader asks, apply |
| Writers.WriteQueue.Release | HolyWater-Test/Pods/leveldb-library/db/db_impl.cc:1236-1253 | the numbers are taken, exactly the group leaves the queue, each of its writers and nobody else is told the outcome; the last sequence number never decreases |
| Writers.NumbersIncrease | HolyWater-Test/Pods/leveldb-library/db/db_impl.cc:1202-1237 | sequence numbers in the memtable strictly increase in queue order and none is beyond the last |
| Writers.SuccessMeansApplied | HolyWater-Test/Pods/leveldb-library/db/db_impl.cc:1185-1256 | a writer told of success finds each of its updates applied, numbered after those before it in its group |
| Writers.WriteQueue.ToldSuccess | HolyWater-Test/Pods/leveldb-library/db/db_impl.cc:1185-1256 | so at any time, whoever entered the queue and was told of success has all its updates in the memtable |
| SkipList.SkipList.Insert | HolyWater-Test/Pods/leveldb-library/db/skiplist.h:337-368 | whatever the height, one node with the key is added, on exactly the levels below its height; consecutive states differ by one store, and every single store keeps all levels sorted and nested |
| SkipList.LinkedLevels | HolyWater-Test/Pods/leveldb-library/db/skiplist.h:361-368 | the new node is on exactly the levels below its height, and nothing else changes on any level |
| SkipList.SkipList.FindGreaterOrEqual | HolyWater-Test/Pods/leveldb-library/db/skiplist.h:260-281 | the first node at or after the key, and the last node before it on every level |
| SkipList.SkipList.FindLessThan | HolyWater-Test/Pods/leveldb-library/db/skiplist.h:283-302 | the last node before the key, or the head |
| SkipList.SkipList.FindLast | HolyWater-Test/Pods/leveldb-library/db/skiplist.h:304-322 | the last node, or the head |
| SkipList.SkipList.Contains | HolyWater-Test/Pods/leveldb-library/db/skiplist.h:370-378 | true exactly for inserted keys |
| SkipList.InterleavedSearch | HolyWater-Test/Pods/leveldb-library/db/skiplist.h:260-281 | a reader that moves while one writer stores stops at the first key at or after its target in the list as of its last load |
| SkipList.ReaderStaysInLists | HolyWater-Test/Pods/leveldb-library/db/skiplist.h:260-281 | a node a reader has reached stays on its level through every later store |
| SkipList.StopIsRight | HolyWater-Test/Pods/leveldb-library/db/skiplist.h:266-279 | where a search stops, the level-0 list of that moment has its first key at or after the target |
| SkipList.OwnStore | HolyWater-Test/Pods/leveldb-library/db/skiplist.h:361-365 | the store to the new node's own link keeps the invariant |
| SkipList.PublishStore | HolyWater-Test/Pods/leveldb-library/db/skiplist.h:366-366 | the store that links the node in keeps the invariant and only adds it |
| SkipList.HeightStore | HolyWater-Test/Pods/leveldb-library/db/skiplist.h:346-358 | the store of the height keeps the invariant, before the levels have nodes |
| SkipList.Iterator.Next | HolyWater-Test/Pods/leveldb-library/db/skiplist.h:207-210 | to the next key |
| SkipList.Iterator.Prev | HolyWater-Test/Pods/leveldb-library/db/skiplist.h:213-221 | to the previous key |
| SkipList.Iterator.Seek | HolyWater-Test/Pods/leveldb-library/db/skiplist.h:224-226 | to the first key at or after the target |
| SkipList.Iterator.SeekToFirst | HolyWater-Test/Pods/leveldb-library/db/skiplist.h:229-231 | to the first key |
| SkipList.Iterator.SeekToLast | HolyWater-Test/Pods/leveldb-library/db/skiplist.h:234-239 | to the last key |
| HandleTable.MaskIsRemainder | HolyWater-Test/Pods/leveldb-library/util/cache.cc:114-120 | masking a hash with the length less one takes the remainder, as the length is a power of two |
| HandleTable.HandleTable.Lookup | HolyWater-Test/Pods/leveldb-library/util/cache.cc:74-76 | the handle the table maps the key to |
| HandleTable.HandleTable.Insert | HolyWater-Test/Pods/leveldb-library/util/cache.cc:78-92 | maps the key to the handle and returns the one replaced; grows when there are more entries than buckets |
| HandleTable.HandleTable.Remove | HolyWater-Test/Pods/leveldb-library/util/cache.cc:94-102 | takes the key out and returns its handle |
| HandleTable.HandleTable.Resize | HolyWater-Test/Pods/leveldb-library/util/cache.cc:122-146 | the map stays; the new length is a power of two, at least the number of entries and less than twice that unless it is 4 |
| LruCache.LRUCache.Lookup | HolyWater-Test/Pods/leveldb-library/util/cache.cc:252-259 | the entry of the key with one more reference for the client, moved to the in-use list |
| LruCache.LRUCache.Release | HolyWater-Test/Pods/leveldb-library/util/cache.cc:261-264 | one reference less; an entry outside the cache is destroyed with its last one |
| LruCache.LRUCache.Insert | HolyWater-Test/Pods/leveldb-library/util/cache.cc:266-303 | the client gets a new entry, in the cache if it has capacity; destroyed are the replaced entry if nobody uses it and then the oldest unused ones, no more than it takes to be within capacity; everything else stays in the table |
| LruCache.LRUCache.Erase | HolyWater-Test/Pods/leveldb-library/util/cache.cc:318-321 | the key leaves the cache; clients keep their entries |
| LruCache.LRUCache.FinishErase | HolyWater-Test/Pods/leveldb-library/util/cache.cc:305-316 | the cache gives its reference up, with charge and list place; the entry is destroyed if it was the last |
| LruCache.LRUCache.EvictOldest | HolyWater-Test/Pods/leveldb-library/util/cache.cc:293-300 | the entry released longest ago is destroyed, and no other |
| LruCache.LRUCache.Prune | HolyWater-Test/Pods/leveldb-library/util/cache.cc:323-333 | exactly the unused entries are destroyed |
| LruCache.LRUCache.Ref | HolyWater-Test/Pods/leveldb-library/util/cache.cc:217-223 | one reference more; an unused cached entry moves to the in-use list |
| LruCache.LRUCache.Unref | HolyWater-Test/Pods/leveldb-library/util/cache.cc:225-237 | one reference less: destroyed at none, moved to the LRU list when only the cache is left |
| LruCache.ListsRemove | HolyWater-Test/Pods/leveldb-library/util/cache.cc:239-242 | two stores take a node out of its ring and leave the other ring alone |
| LruCache.ListsAppend | HolyWater-Test/Pods/leveldb-library/util/cache.cc:244-250 | four stores put a node at the newest end of a ring |
| Lifetime.RecordsAreListed | HolyWater-Test/Pods/leveldb-library/db/version_set.cc:68-86 | a file record exists exactly as long as some version or the builder lists it |
| Lifetime.InUseIsListed | HolyWater-Test/Pods/leveldb-library/db/version_set.cc:784-799 | the versions on the list are exactly those that a client holds, the current one, and the one a builder works from |
| Lifetime.DropKeepsFiles | HolyWater-Test/Pods/leveldb-library/db/version_set.cc:68-86 | when a version goes, exactly the records nobody else lists are freed, and all counts stay right |
| Lifetime.HoldKeepsFiles | HolyWater-Test/Pods/leveldb-library/db/version_set.cc:741-754 | a new version's references keep all counts right |
| Lifetime.VersionSet.Ref | HolyWater-Test/Pods/leveldb-library/db/version_set.cc:474-474 | one reference more on a version of the list |
| Lifetime.VersionSet.Unref | HolyWater-Test/Pods/leveldb-library/db/version_set.cc:476-483 | one reference less; the last one takes the version off the list and its files' references back |
| Lifetime.VersionSet.OpenBuilder | HolyWater-Test/Pods/leveldb-library/db/version_set.cc:619-626 | a builder holds a reference on its base |
| Lifetime.VersionSet.AddFile | HolyWater-Test/Pods/leveldb-library/db/version_set.cc:667-691 | an added file gets a record that the builder holds |
| Lifetime.VersionSet.SaveTo | HolyWater-Test/Pods/leveldb-library/db/version_set.cc:741-754 | the new version holds a reference on each of its files |
| Lifetime.VersionSet.CloseBuilder | HolyWater-Test/Pods/leveldb-library/db/version_set.cc:628-647 | the builder's records and its base lose one reference each |
| Lifetime.VersionSet.AppendVersion | HolyWater-Test/Pods/leveldb-library/db/version_set.cc:784-799 | the new version is current and last on the list; the old one loses a reference |
| Lifetime.VersionSet.AbandonVersion | HolyWater-Test/Pods/leveldb-library/db/version_set.cc:872-873 | a version whose edit could not be logged gives its files back and was never on the list |
| Lifetime.VersionSet.AddLiveFiles | HolyWater-Test/Pods/leveldb-library/db/version_set.cc:1167-1177 | walking the list finds exactly the files of the versions on it |
| Lifetime.VersionSet.DeleteObsoleteFiles | HolyWater-Test/Pods/leveldb-library/db/db_impl.cc:223-277 | a table or temporary file is kept exactly when it is being written or a version on the list has it, so no table of a referenced version goes; logs and manifests go when older than those in use; after a background error nothing goes |
| NanopbEncode.OStream.Write | HolyWater-Test/Pods/nanopb/pb_encode.c:103-124 | bytes are written if they fit, counted in any case when only sizing, and nothing happens otherwise |
| NanopbEncode.OStream.EncodeVarint | HolyWater-Test/Pods/nanopb/pb_encode.c:608-628 | writes the varint, built with continuation bits of which the last is cleared |
| NanopbEncode.OStream.EncodeSvarint | HolyWater-Test/Pods/nanopb/pb_encode.c:630-639 | writes the zigzag varint |
| NanopbEncode.OStream.EncodeFixed32 | HolyWater-Test/Pods/nanopb/pb_encode.c:641-650 | four bytes, least significant first |
| NanopbEncode.OStream.EncodeFixed64 | HolyWater-Test/Pods/nanopb/pb_encode.c:653-666 | eight bytes, least significant first |
| NanopbEncode.OStream.EncodeTagForField | HolyWater-Test/Pods/nanopb/pb_encode.c:675-707 | field number and wire type of the field: the varint of eight times the number and 0, 1, 2 or 5 as `NanopbFormat.WireTypesInNumbers` says |
| NanopbEncode.OStream.EncodeSubmessage | HolyWater-Test/Pods/nanopb/pb_encode.c:717-765 | the sizing pass counts exactly the bytes the write pass emits; the size never changes between the two; failure leaves a prefix of the encoding |
| NanopbEncode.OStream.EncodeData | HolyWater-Test/Pods/nanopb/pb_encode.c:769-910 | one value of any type |
| NanopbEncode.OStream.EncodeArray | HolyWater-Test/Pods/nanopb/pb_encode.c:147-236 | nothing for no items, an error for too many, packed if it can be, else a tag each |
| NanopbEncode.OStream.EncodePacked | HolyWater-Test/Pods/nanopb/pb_encode.c:164-205 | tag, exact size, items |
| NanopbEncode.OStream.EncodeBasicField | HolyWater-Test/Pods/nanopb/pb_encode.c:341-426 | the field is written exactly when it is present |
| NanopbEncode.OStream.Encode | HolyWater-Test/Pods/nanopb/pb_encode.c:528-550 | the fields in descriptor order: it succeeds exactly when the message is within its arrays and the encoding fits, and writes or counts exactly the encoding, which `NanopbFormat` states byte by byte |
| NanopbEncode.OStream.EncodeNullTerminated | HolyWater-Test/Pods/nanopb/pb_encode.c:557-565 | the same with a zero byte after it |
| NanopbEncode.GetEncodedSize | HolyWater-Test/Pods/nanopb/pb_encode.c:567-576 | the length of the encoding, or none if the message is not within its arrays |
| NanopbEncode.EncodeToBuffer | HolyWater-Test/Pods/nanopb/pb_encode.c:86-101 | into a buffer of a given size: success exactly when it fits, and then the encoding |
| NanopbEncode.SubstreamEmits | HolyWater-Test/Pods/nanopb/pb_encode.c:740-762 | a substream with room for just the body writes just the body |
| NanopbReader.IStream.Read | HolyWater-Test/Pods/nanopb/pb_decode.c:102-137 | so many bytes, or an error at the end of the stream |
| NanopbReader.IStream.DecodeVarint32 | HolyWater-Test/Pods/nanopb/pb_decode.c:187-252 | a 32-bit varint with overlong sign extension, and every overflow it refuses |
| NanopbReader.IStream.DecodeVarint | HolyWater-Test/Pods/nanopb/pb_decode.c:255-275 | a 64-bit varint of at most ten bytes |
| NanopbReader.IStream.SkipField | HolyWater-Test/Pods/nanopb/pb_decode.c:321-331 | passes over a field of any wire type, by as many bytes as `NanopbFormat.SkipInNumbers` says |
| NanopbReader.IStream.DecodeTag | HolyWater-Test/Pods/nanopb/pb_decode.c:298-319 | a tag, or the end at a zero |
| NanopbReader.IStream.MakeStringSubstream | HolyWater-Test/Pods/nanopb/pb_decode.c:372-385 | a substream over exactly the length-delimited bytes, on the shared callback |
| NanopbReader.IStream.CloseStringSubstream | HolyWater-Test/Pods/nanopb/pb_decode.c:387-400 | the stream goes on right behind the substream, read to its end or not |
| NanopbReader.FieldIter.Next | HolyWater-Test/Pods/nanopb/pb_common.c:29-85 | the next field with its number among the required ones, wrapping to the first |
| NanopbReader.FieldIter.Find | HolyWater-Test/Pods/nanopb/pb_common.c:87-104 | finds the field with the tag from any place exactly when there is one, and else returns to where it was |
| NanopbReader.CheckRequired | HolyWater-Test/Pods/nanopb/pb_decode.c:1060-1078 | the check by words accepts exactly the bitmaps with all required bits |
| NanopbReader.MarksTell | HolyWater-Test/Pods/nanopb/pb_decode.c:1021-1078 | the bitmap tells exactly whether a required field among the first 64 is missing |
| NanopbReader.DecodeStaticField | HolyWater-Test/Pods/nanopb/pb_decode.c:406-483 | one occurrence of a field: scalars replaced, messages merged, items appended, packed runs appended, as `NanopbRoundTrip.SlotReads` says of every encoding |
| NanopbReader.DecodeData | HolyWater-Test/Pods/nanopb/pb_decode.c:1334-1570 | one value of any type, with every range check |
| NanopbReader.DecodeNoInit | HolyWater-Test/Pods/nanopb/pb_decode.c:934-1082 | all fields in any order into what is there, unknown ones passed over, missing required ones refused; on encodings it is the merge of `NanopbRoundTrip.MergeReads` |
| NanopbReader.DecodeBuffer | HolyWater-Test/Pods/nanopb/pb_decode.c:1084-1096 | into a fresh message |
| NanopbDecode.FindTag | HolyWater-Test/Pods/nanopb/pb_common.c:87-104 | the field with the tag, or there is none |
| NanopbRoundTrip.Varint32RestReads | HolyWater-Test/Pods/nanopb/pb_decode.c:211-243 | the bytes after the first of an encoded 32-bit varint add the rest of its value |
| NanopbDecode.DecodeVarint32Ends | HolyWater-Test/Pods/nanopb/pb_decode.c:187-288 | a varint that is taken ends where passing over it ends, and leaves a tail of the input |
| NanopbDecode.UnknownFieldPassed | HolyWater-Test/Pods/nanopb/pb_decode.c:934-1010 | for every field list and input: an unknown field is passed over by its wire type exactly when the message type has fields, or the number is not zero, or a bool in its place takes the same bytes |
| NanopbDecode.BoolPassesAlike | HolyWater-Test/Pods/nanopb/pb_decode.c:321-331 | when a bool takes the same bytes, wire type by wire type, from the next bytes |
| NanopbDecode.EmptyTypeMisreads | HolyWater-Test/Pods/nanopb/pb_common.c:87-104 | the failing case: a string under number zero in an empty message type, of which only the length is passed over |
| NanopbRoundTrip.DecodeVarint32Reads | HolyWater-Test/Pods/nanopb/pb_decode.c:187-247 | an encoded 32-bit varint is taken exactly, before any suffix |
| NanopbRoundTrip.ValueReads | HolyWater-Test/Pods/nanopb/pb_decode.c:1334-1570 | any value that fits is read back from its encoding, before any suffix |
| NanopbRoundTrip.ValueMerges | HolyWater-Test/Pods/nanopb/pb_decode.c:1334-1570 | any value, read over whatever was there: numbers and strings replace it, a message is merged into it; refused exactly when something does not fit |
| NanopbRoundTrip.ItemsPacked | HolyWater-Test/Pods/nanopb/pb_decode.c:425-453 | a packed run, read into any items: they are appended in order, or refused exactly when there is no room for all of them |
| NanopbRoundTrip.EachReads | HolyWater-Test/Pods/nanopb/pb_decode.c:456-464 | items with a tag each, read into any message: they are appended in order behind the items there, or refused exactly when one does not fit |
| NanopbRoundTrip.ItemReads | HolyWater-Test/Pods/nanopb/pb_decode.c:456-464 | one item under its own tag, packable or not, goes behind the items there, if there is room |
| NanopbRoundTrip.PackedReads | HolyWater-Test/Pods/nanopb/pb_decode.c:425-453 | a packed run goes behind the items there, if there is room for all of it |
| NanopbRoundTrip.SlotReads | HolyWater-Test/Pods/nanopb/pb_decode.c:952-1030 | the encoding of one field, read into any message: it takes the merge of the fields before it to the merge with it, or is refused exactly when it does not fit |
| NanopbRoundTrip.MergeReads | HolyWater-Test/Pods/nanopb/pb_decode.c:934-1082 | an encoded message, read into any message and before any suffix, is merged in, or refused exactly when it does not fit |
| NanopbRoundTrip.ConcatenationMerges | HolyWater-Test/Pods/nanopb/pb_decode.c:406-483 | decoding the concatenation of two encodings gives the second message merged into the first, for all messages |
| NanopbMerge.FreshMerge | HolyWater-Test/Pods/nanopb/pb_decode.c:1084-1096 | merging into a fresh message gives the message, and it fits exactly when it is within its arrays |
| NanopbRoundTrip.ZeroIsDefault | HolyWater-Test/Pods/nanopb/pb_encode.c:240-337 | a singular value that is not encoded is the default, nested messages included |
| NanopbRoundTrip.FieldsRead | HolyWater-Test/Pods/nanopb/pb_decode.c:1084-1096 | decoding an encoded message restores it at every depth, up to the contents of absent fields; it is refused exactly when the message is not within its arrays |
| NanopbFormat.WireTypesInNumbers | HolyWater-Test/Pods/nanopb/pb.h:319-323 | the wire types: 0 for bools and integers, 1 for eight bytes, 2 for what has a length, 5 for four bytes |
| NanopbFormat.FieldInBytes | HolyWater-Test/Pods/nanopb/pb_encode.c:341-426 | what is written of a present field: the varint of eight times its number and the wire type, then the value; packed arrays have type 2 and a length |
| NanopbFormat.DoubleOfThree | HolyWater-Test/Pods/nanopb/pb_encode.c:675-707 | eight bytes under field number 3 start with 0x19 |
| NanopbFormat.NumbersInBytes | HolyWater-Test/Pods/nanopb/pb_encode.c:769-850 | numbers of any width on the wire, negative ones from 2^64 down or by zigzag |
| NanopbFormat.LengthsInBytes | HolyWater-Test/Pods/nanopb/pb_encode.c:852-910 | byte strings and messages follow their length |
| NanopbFormat.LastFieldLast | HolyWater-Test/Pods/nanopb/pb_encode.c:528-550 | fields are written in descriptor order |
| NanopbFormat.PresentInBytes | HolyWater-Test/Pods/nanopb/pb_encode.c:240-426 | which fields are written at all: proto3 ones exactly when some byte of their encoding is not zero |
| NanopbFormat.ZigZagInNumbers | HolyWater-Test/Pods/nanopb/pb_encode.c:630-640 | 0, -1, 1, -2 become 0, 1, 2, 3, and even numbers are those of the numbers that are not negative |
| NanopbFormat.SkipInNumbers | HolyWater-Test/Pods/nanopb/pb_decode.c:321-331 | wire type 1 passes over eight bytes and 5 over four; unknown wire types are refused |
| NanopbFormat.SkipsEncoded | HolyWater-Test/Pods/nanopb/pb_decode.c:278-296 | a varint, and a string with its length, is passed over exactly |
| NanopbFormat.UnknownIsIgnored | HolyWater-Test/Pods/nanopb/pb_decode.c:960-1010 | a field the descriptor does not know makes no difference to any message |
| NanopbFormat.RequiredInNumbers | HolyWater-Test/Pods/nanopb/pb_decode.c:1039-1078 | at the end, a message is accepted exactly when no required field is missing that has fewer than 64 required ones before it |
| NanopbFormat.UnsignedAccepted | HolyWater-Test/Pods/nanopb/pb_decode.c:1382-1404 | unsigned numbers are taken exactly when they fit into the bytes of the field |
| NanopbFormat.SignedAccepted | HolyWater-Test/Pods/nanopb/pb_decode.c:1345-1380 | signed numbers: up to four bytes take the low 32 bits in two's complement, and refuse what does not fit then |
| NanopbFormat.ZigZagAccepted | HolyWater-Test/Pods/nanopb/pb_decode.c:1406-1428 | zigzag numbers are taken exactly when they fit into the bytes of the field |
| NanopbFormat.BoolAccepted | HolyWater-Test/Pods/nanopb/pb_decode.c:1334-1343 | any 32-bit number but zero is true |
| NanopbFormat.BlobsAccepted | HolyWater-Test/Pods/nanopb/pb_decode.c:1447-1570 | byte strings are taken exactly when they fit, strings with a byte to spare for the final zero, fixed ones also when empty |
| NanopbRoundTrip.EncodeThenDecode | HolyWater-Test/Pods/nanopb/pb_encode.c:528-550 | encoder and decoder as they run, one after the other, restore the message exactly when it is within its arrays and fits the buffer |

## Left out

- Database.Database.CompactLevel: one atomic step; the flush that the source can run inside a compaction (db/db_impl.cc:908-918) is not interleaved with it.
- Database.Database.CompactLevel: that every read stays is stated under the condition on the next level's boundaries, because without it the code does lose deletions.
- Database.Database.Write: sequence numbers up to 2^56 - 2; log files, sync and waiting for room are in `Log` and `Writers`, not joined with it.
- Compaction.CompactionState.DoCompactionWork: which entries ask for a cut in front of them, and after which a table is full, are inputs; the overlap and size heuristics behind that are not computed. Keys always parse.
- Inputs.PickCompaction: the level with too much data and the file with too many seeks are inputs; scores and seek counts are not computed.
- Builder.LevelState.SaveTo: one level at a time; the seven levels do not interact.
- MemTable.MemTable.Add: the table is a sequence in the list's order; its links are `SkipList`.
- SkipList.SkipList.Insert: nodes are numbers into a memory of links, and stores take effect in program order; acquire and release are not modelled.
- HandleTable.HandleTable.Insert: a bucket is a sequence of handles, not a chain of pointers.
- LruCache.LRUCache.Insert: one shard of fixed capacity; hashing to shards and the mutex are left out.
- Lifetime.VersionSet.DeleteObsoleteFiles: file names are parsed already, and deletions succeed.
- Writers.WriteQueue.Lead: waiting and waking are steps that may come in any order; making room either works or fails.
- BlockIter.Iter.Seek: blocks with the shape that a builder gives; corrupted blocks are left out.
- BlockIter.Iter.ParseNextKey: the same; the corruption error of a damaged entry (table/block.cc:237-241) is left out.
- BlockIter.Iter.FindRestart: the same; the corruption error of a damaged restart entry (table/block.cc:175-178) is left out.
- TableBuilding.TableBuilder.Add: the size that ends a block is any function of the block's entries; the block's own bytes are `Block` and `BlockIter`, not joined with it.
- TableBuilding.TableBuilder.Flush: writing the block's bytes and compressing them are left out.
- TableBuilding.TableBuilder.Finish: the bytes of handles and footer and the filter and meta blocks' places are left out; the filters of a table take less than 2^32 bytes.
- Table.InternalGet: the block cache and reading from disk are left out.
- Log.Reader.ReadPhysicalRecord: from offset 0; skipping records before a later initial offset (db/log_reader.cc:261-266) is left out.
- Log.Reader.ReadRecord: from offset 0; the search for a later initial offset is left out, and the checksum is any function of type and payload.
- Coding.GetVarintPtr: pointers are positions in a byte sequence.
- VersionEdit.EditRoundTrip: numbers of 64 bits, levels below 7, strings and keys below 2^32 bytes.
- WriteBatch.WriteBatch.Append: at most 2^31 - 1 updates in a batch.
- FilterBlock.FilterBlockBuilder.Finish: the filters of one table take less than 2^32 bytes.
- DbIter.DBIter.Next: sampling of reads and keys that do not parse are left out; the inner cursor is one over a sorted sequence, which `Merger`, `TwoLevel` and `BlockIter` refine.
- NanopbEncode.OStream.Encode: statically allocated fields; callbacks, extensions, pointers and arrays of fixed count are left out, and sizes are below 2^64.
- NanopbReader.DecodeNoInit: a message is a record with one place for each field, not raw memory; the words of the bitmap are sequences of bits; varints padded beyond the wrap of an 8-bit position count are not modelled.
- NanopbRoundTrip.FieldsRead: default values are zeros; messages encode to less than 2^32 bytes, which is what a length on the wire can be.
- Condition variables, threads and memory order; clocks; the file system beyond files that are appended to and read.
- Snappy, checksum tables, the POSIX environment, file names, the table cache, repair and dump tools.
- Everything of the app that is not one of the two libraries: views, view models, Firebase calls, layouts, headers, BoringSSL.
- Nothing here was executed: the statements are about the model, and its agreement with the source is by reading.
