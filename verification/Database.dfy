/** The store as one object: writes, memtable switches, flushes, compactions, snapshots and reads
    (db/db_impl.cc). `history` is the list of all operations ever written; the object invariant
    says that reads agree with it. */
module Database {
  import opened Keys
  import opened Sequences
  import opened Versions
  import opened Edits
  import opened Builder
  import opened Inputs
  import opened Compaction
  import opened Store
  import opened Steps
  import opened History

  ghost predicate SnapshotsOk(snapshots: seq<nat>, last: nat) {
    && (forall i, j :: 0 <= i < j < |snapshots| ==> snapshots[i] <= snapshots[j])
    && forall i :: 0 <= i < |snapshots| ==> snapshots[i] <= last
  }

  function EmptyVersion(): (r: seq<seq<FileMetaData>>)
    ensures |r| == NUM_LEVELS && forall l :: 0 <= l < NUM_LEVELS ==> r[l] == []
  {
    [[], [], [], [], [], [], []]
  }

  lemma EmptyVersionIsValid()
    ensures ValidVersion(EmptyVersion()) && LevelsOrdered(EmptyVersion()) && NumbersUnique(EmptyVersion(), 2)
    ensures VersionEntries(EmptyVersion()) == {}
  {
    hide *;
    NoFilesNoNumbers(EmptyVersion());
    NoFilesValid(EmptyVersion());
    NoFilesNoEntries(EmptyVersion());
  }

  lemma NoFilesValid(files: seq<seq<FileMetaData>>)
    requires |files| == NUM_LEVELS && forall l :: 0 <= l < |files| ==> files[l] == []
    ensures ValidVersion(files) && LevelsOrdered(files)
  {
    hide Less, Sorted, Newer, BySmallestKey;
  }

  lemma NoFilesNoEntries(files: seq<seq<FileMetaData>>)
    requires forall l :: 0 <= l < |files| ==> files[l] == []
    ensures VersionEntries(files) == {}
  {
    hide Less, Sorted;
    assert forall l :: 0 <= l < |files| ==> LevelEntries(files[l]) == {};
  }

  lemma NoFilesNoNumbers(files: seq<seq<FileMetaData>>)
    requires forall l :: 0 <= l < |files| ==> files[l] == []
    ensures NumbersUnique(files, 2)
  {
    hide Less, Sorted;
  }

  ghost function ImmEntries(imm: Option<seq<Entry>>): set<Entry> {
    if imm.Some? then EntrySet(imm.value) else {}
  }

  /** Memtable above immutable memtable above the version, and each of them in order. */
  ghost predicate Layered(mem: seq<Entry>, imm: Option<seq<Entry>>, files: seq<seq<FileMetaData>>, next: nat) {
    && ValidVersion(files)
    && LevelsOrdered(files)
    && NumbersUnique(files, next)
    && Sorted(mem)
    && (imm.Some? ==> Sorted(imm.value))
    && Below(EntrySet(mem), ImmEntries(imm) + VersionEntries(files))
    && Below(ImmEntries(imm), VersionEntries(files))
  }

  class Database {
    var mem: seq<Entry>
    var imm: Option<seq<Entry>>
    var files: seq<seq<FileMetaData>>
    var lastSequence: nat
    var nextFileNumber: nat
    var snapshots: seq<nat>
    ghost var history: seq<Op>
    /** No compaction so far has changed what a reader may ask for. */
    ghost var intact: bool

    /** All entries present in the store. */
    ghost function All(): set<Entry>
      reads this`mem, this`imm, this`files
    {
      EntrySet(mem) + ImmEntries(imm) + VersionEntries(files)
    }

    /** The oldest sequence number a reader may still ask for. */
    function Oldest(): nat
      reads this`snapshots, this`lastSequence
    {
      if snapshots == [] then lastSequence else snapshots[0]
    }

    ghost predicate Valid()
      reads this
    {
      && Layered(mem, imm, files, nextFileNumber)
      && FromHistory(All(), history)
      && lastSequence == |history| < MAX_SEQUENCE
      && SnapshotsOk(snapshots, lastSequence)
      && (intact ==> ReadsMatch(All(), history, Oldest()))
    }

    constructor ()
      ensures Valid() && history == [] && intact && snapshots == [] && All() == {} && nextFileNumber == 2
    {
      mem, imm, lastSequence, nextFileNumber, snapshots := [], None, 0, 2, [];
      files := EmptyVersion();
      history, intact := [], true;
      new;
      hide ValidVersion, LevelsOrdered, NumbersUnique, VersionEntries;
      EmptyVersionIsValid();
      assert All() == {};
      assert MapAfter([]) == map[];
    }

    /** Point lookup: memtable, immutable memtable, then the levels. The answer is the newest entry
        present that the snapshot can see, and it is what the map held at that point of history. */
    method Get(user: UserKey, snapshot: nat) returns (r: Option<Bytes>)
      requires Valid()
      ensures exists e :: IsNewest(All(), user, snapshot, e) && r == ValueOf(e)
      ensures intact && Oldest() <= snapshot <= lastSequence ==> r == ReadAfter(history[..snapshot], user)
    {
      hide Less, Sorted, ReadsMatch, FromHistory, IsNewest, Below, LevelsOrdered, NumbersUnique, ValidVersion, VersionEntries;
      var e := Lookup(mem, user, snapshot);
      assert EntrySet(mem) == (set x | x in mem);
      if e.Some? {
        HitOnTop(EntrySet(mem), ImmEntries(imm) + VersionEntries(files), user, snapshot, e.value);
      } else {
        if imm.Some? {
          e := Lookup(imm.value, user, snapshot);
          assert EntrySet(imm.value) == (set x | x in imm.value);
        } else {
          NothingToSee(user, snapshot);
        }
        if e.Some? {
          HitOnTop(ImmEntries(imm), VersionEntries(files), user, snapshot, e.value);
        } else {
          e := Versions.Get(files, user, snapshot);
          MissOnTop(ImmEntries(imm), VersionEntries(files), user, snapshot, e);
        }
        MissOnTop(EntrySet(mem), ImmEntries(imm) + VersionEntries(files), user, snapshot, e);
      }
      assert EntrySet(mem) + (ImmEntries(imm) + VersionEntries(files)) == All();
      assert IsNewest(All(), user, snapshot, e);
      r := ValueOf(e);
      if intact && Oldest() <= snapshot <= lastSequence {
        ReadIsHistory(All(), history, Oldest(), user, snapshot, e);
      }
    }

    /** Apply a batch: each operation gets the next sequence number, in order. */
    method Write(batch: seq<Op>)
      requires Valid() && lastSequence + |batch| < MAX_SEQUENCE
      modifies this`mem, this`lastSequence, this`history
      ensures Valid() && history == old(history) + batch
    {
      hide Layered, FromHistory, ReadsMatch, SnapshotsOk;
      for i := 0 to |batch|
        modifies this`mem, this`lastSequence, this`history
        invariant Valid() && history == old(history) + batch[..i] && lastSequence == old(lastSequence) + i
      {
        PrefixAppend(batch, i);
        Add(batch[i]);
      }
      WholePrefix(batch);
    }

    method Add(op: Op)
      requires Valid() && lastSequence + 1 < MAX_SEQUENCE
      modifies this`mem, this`lastSequence, this`history
      ensures Valid() && history == old(history) + [op]
    {
      hide Less, Sorted, ReadsMatch, FromHistory, ValidVersion, LevelsOrdered, NumbersUnique, VersionEntries, Below, EntrySet;
      ghost var lower := ImmEntries(imm) + VersionEntries(files);
      var e := EntryOf(op, lastSequence + 1);
      assert All() == EntrySet(mem) + lower;
      NewEntry(EntrySet(mem), lower, history, op, intact, Oldest(),
               if snapshots == [] then lastSequence + 1 else snapshots[0]);
      MemKeys(mem, lower, e);
      mem := InsertSorted(mem, e);
      lastSequence := lastSequence + 1;
      history := history + [op];
      assert All() == EntrySet(mem) + lower;
    }

    /** Retire the full memtable; the next write starts a new one. */
    method SwitchMemTable()
      requires Valid() && imm.None?
      modifies this`mem, this`imm
      ensures Valid() && mem == [] && imm == Some(old(mem))
    {
      hide Less, IsNewest, ReadsMatch, ValidVersion, LevelsOrdered, NumbersUnique, VersionEntries;
      ghost var all := All();
      imm, mem := Some(mem), [];
      assert All() == all;
    }

    /** Take a snapshot of the current state. */
    method GetSnapshot() returns (s: nat)
      requires Valid()
      modifies this`snapshots
      ensures Valid() && s == lastSequence && snapshots == old(snapshots) + [s]
    {
      hide IsNewest, ReadsMatch, Layered, FromHistory;
      ghost var oldest := Oldest();
      s := lastSequence;
      snapshots := snapshots + [s];
      assert Oldest() == oldest;
    }

    method ReleaseSnapshot(i: nat)
      requires Valid() && i < |snapshots|
      modifies this`snapshots
      ensures Valid() && snapshots == old(snapshots[..i] + snapshots[i + 1..])
    {
      hide IsNewest, ReadsMatch, Layered, FromHistory;
      ghost var oldest := Oldest();
      snapshots := snapshots[..i] + snapshots[i + 1..];
      assert oldest <= Oldest();
      if intact {
        LaterReads(All(), history, oldest, Oldest());
      }
    }

    /** Write the immutable memtable to a table, and install it at the level chosen for it. */
    method CompactMemTable(fileSize: nat, maxGrandParentOverlap: nat) returns (ghost level: nat)
      requires Valid() && imm.Some?
      modifies this`imm, this`files, this`nextFileNumber
      ensures Valid() && imm.None? && All() == old(All())
      ensures old(imm).value == [] ==> files == old(files)
      ensures old(imm).value != [] ==>
                && ValidVersion(old(files)) && Sorted(old(imm).value)
                && var f: FileMetaData := TableFile(old(nextFileNumber), fileSize, old(imm).value);
                   && IsFlushLevel(old(files), f.Smallest().user, f.Largest().user, maxGrandParentOverlap, level)
                   && InstallsTable(old(files), level, f, files)
    {
      hide Less, Sorted, Ordered, Below, FromHistory, ReadsMatch, NumbersUnique, VersionEntries, EntrySet, Overlaps, SortedLevel;
      hide NumberedByAge, ShallowerIsNewer, IsNewest, WeaklyOrdered, NoneRepeats, Saves, Firsts, NoDoubleAdds, Edited, Files;
      hide Overlapping, TotalFileSize, IsFlushLevel;
      var entries := imm.value;
      var number := nextFileNumber;
      nextFileNumber := nextFileNumber + 1;
      level := 0;
      if entries != [] {
        var f: FileMetaData := TableFile(number, fileSize, entries);
        KeysInRange(All(), history, files);
        var chosen := PickLevelForMemTableOutput(files, f.Smallest().user, f.Largest().user, maxGrandParentOverlap);
        FlushLevelInRange(files, f.Smallest().user, f.Largest().user, maxGrandParentOverlap, chosen);
        OrderedIsStrict(files[chosen]);
        var list := LogAndApply(files[chosen], LevelEdit([], [f]));
        AddedFile(files, number, chosen, f, list);
        files := files[chosen := list];
        level := chosen;
      } else {
        NumbersGrow(files, number);
        NoEntries(entries);
      }
      BelowParts(EntrySet(mem), EntrySet(entries), old(VersionEntries(files)), VersionEntries(files));
      imm := None;
    }

    /** One background compaction of `level`, started from `pick`: move a lone file down, or merge the
        inputs and write what no reader can miss back to the next level. Reads stay intact unless a
        file left out of the next level continues an input's last user key. */
    method CompactLevel(level: nat, pick: seq<FileMetaData>, sizeLimit: nat, isManual: bool, maxGrandParentOverlap: nat,
                        stopBefore: nat -> bool, full: nat -> bool, sizes: nat -> nat)
        returns (ghost c: Change, ghost run: Run)
      requires Valid() && level + 1 < NUM_LEVELS
      requires pick != [] && GoodPick(level, files[level], pick)
      modifies this`files, this`nextFileNumber, this`intact
      ensures Valid()
      ensures c.level == level && Compacts(old(files), pick, sizeLimit, isManual, maxGrandParentOverlap, Oldest(), c, run, files)
      ensures OutputNumbers(c, run, old(nextFileNumber), nextFileNumber) && OutputCuts(c, run, stopBefore, full)
      ensures intact <==> old(intact) && ReadsStay(old(All()), All(), Oldest())
      ensures NextLevelBoundaryClosed(old(files), c) ==> ReadsStay(old(All()), All(), Oldest())
    {
      hide Less, Sorted, Ordered, Below, FromHistory, ReadsMatch, NumbersUnique, VersionEntries, EntrySet, Overlaps;
      hide SortedLevel, NumberedByAge, ShallowerIsNewer, IsNewest, GoodPick, LevelEntries, ValidVersion, Compacts, OutputNumbers, OutputCuts;
      hide NextLevelBoundaryClosed, NothingSurfaces, LevelsOrdered, ReadsStay;
      var version, smallest := files, Oldest();
      ghost var all, top := All(), EntrySet(mem) + ImmEntries(imm);
      LowerFromHistory(top, VersionEntries(files), history);
      var files1, next1;
      files1, next1, c, run := RunCompaction(level, files, pick, sizeLimit, isManual, maxGrandParentOverlap, smallest,
                                             nextFileNumber, stopBefore, full, sizes, history);
      files, nextFileNumber := files1, next1;
      SmallerVersion(EntrySet(mem), ImmEntries(imm), VersionEntries(version), VersionEntries(files), history);
      ReadsAfterRun(top, version, pick, sizeLimit, isManual, maxGrandParentOverlap, smallest, c, run, files, history);
      intact := intact && ReadsStay(all, All(), smallest);
      if intact {
        StayMatches(all, All(), history, smallest);
      }
    }
  }

  lemma LowerFromHistory(top: set<Entry>, low: set<Entry>, h: seq<Op>)
    requires FromHistory(top + low, h)
    ensures FromHistory(low, h)
  {
  }

  /** How a compaction went: the selection's steps, the files two levels down, the merged input, the places in it
      of each output's entries, and whether a lone file was just moved. */
  datatype Run = Run(plan: Plan, grandparents: seq<FileMetaData>, input: seq<Entry>, places: seq<seq<nat>>, moved: bool)

  ghost predicate Compacts(files: seq<seq<FileMetaData>>, pick: seq<FileMetaData>, sizeLimit: nat, isManual: bool,
                           maxGrandParentOverlap: nat, smallest: nat, c: Change, run: Run, files1: seq<seq<FileMetaData>>) {
    && |files| == NUM_LEVELS && c.level + 1 < |files|
    && Selected(c.level, files, c.inputs0, c.inputs1) && (forall f :: f in pick ==> f in c.inputs0)
    && Follows(c.level, files, pick, sizeLimit, run.plan, c.inputs0, c.inputs1)
    && (if c.level + 2 < |files| then MeetsSpan(files[c.level + 2], c.inputs0 + c.inputs1, run.grandparents)
        else run.grandparents == [])
    && (run.moved <==> !isManual && |c.inputs0| == 1 && |c.inputs1| == 0
                       && TotalFileSize(run.grandparents) <= maxGrandParentOverlap)
    && Sorted(run.input) && EntrySet(run.input) == InputEntries(c)
    && (if run.moved then c.outputs == c.inputs0
        else LevelEntries(c.outputs) == KeptSet(run.input, smallest, BaseAt(files, c.level)))
    && Installs(files, c, files1)
  }

  /** A moved file keeps its number; written ones take the next numbers. */
  ghost predicate OutputNumbers(c: Change, run: Run, next: nat, next1: nat) {
    if run.moved then next1 == next
    else next1 == next + |c.outputs| && forall i :: 0 <= i < |c.outputs| ==> c.outputs[i].number == next + i
  }

  /** The outputs are cut exactly where the overlap and size rules ask for it. */
  ghost predicate OutputCuts(c: Change, run: Run, stopBefore: nat -> bool, full: nat -> bool) {
    !run.moved ==> FilesAt(run.input, c.outputs, run.places) && CutWhereAsked(run.places, stopBefore, full)
  }

  ghost predicate FilesAt(input: seq<Entry>, fs: seq<FileMetaData>, places: seq<seq<nat>>) {
    |places| == |fs| && forall t :: 0 <= t < |fs| ==> PlacesOf(input, fs[t].entries, places[t])
  }

  method RunCompaction(level: nat, files: seq<seq<FileMetaData>>, pick: seq<FileMetaData>, sizeLimit: nat, isManual: bool,
                       maxGrandParentOverlap: nat, smallest: nat, next: nat, stopBefore: nat -> bool, full: nat -> bool,
                       sizes: nat -> nat, ghost h: seq<Op>)
      returns (files1: seq<seq<FileMetaData>>, next1: nat, ghost c: Change, ghost run: Run)
    requires ValidVersion(files) && LevelsOrdered(files) && NumbersUnique(files, next) && FromHistory(VersionEntries(files), h)
    requires level + 1 < NUM_LEVELS && pick != [] && GoodPick(level, files[level], pick) && smallest < MAX_SEQUENCE
    ensures c.level == level && Compacts(files, pick, sizeLimit, isManual, maxGrandParentOverlap, smallest, c, run, files1)
    ensures OutputNumbers(c, run, next, next1) && OutputCuts(c, run, stopBefore, full)
    ensures ValidVersion(files1) && LevelsOrdered(files1) && NumbersUnique(files1, next1)
    ensures VersionEntries(files1) <= VersionEntries(files) && (run.moved ==> VersionEntries(files1) == VersionEntries(files))
  {
    hide Less, Sorted, Ordered, FromHistory, NumbersUnique, VersionEntries, EntrySet, Overlaps, Follows, MeetsSpan, TotalFileSize;
    hide SortedLevel, NumberedByAge, ShallowerIsNewer, GoodPick, Selected, Installs, LevelEntries, KeptSet;
    hide OwnNumbers, GoodOutputs, SameKeySameEntry, IsBase, BaseAt, LevelsOrdered, IsLargest, Apart, FilesAt, CutWhereAsked;
    var inputs0, inputs1, _, plan := SetupOtherInputs(level, files, pick, sizeLimit);
    InputKeys(VersionEntries(files), h, files, Change(level, inputs0, inputs1, []));
    var merged := MakeInputIterator(inputs0 + inputs1);
    JoinEntries(inputs0, inputs1);
    assert pick[0] in inputs0;
    var move, grandparents := IsTrivialMove(level, files, inputs0, inputs1, maxGrandParentOverlap);
    var moved := !isManual && move;
    var outputs := inputs0;
    ghost var places := [];
    next1 := next;
    if !moved {
      outputs, places := MergeInputs(level, files, merged, smallest, next, stopBefore, full, sizes);
      next1 := next + |outputs|;
    }
    var change := Change(level, inputs0, inputs1, outputs);
    c, run := change, Run(plan, grandparents, merged, places, moved);
    OutputsFit(files, c, merged, smallest, next, next1, moved);
    files1 := InstallCompactionResults(files, change, next, next1);
    CompactionKeepsVersion(files, c, files1);
    TakenFromLevel(files, c);
    NumbersStayUnique(files, c, files1, next, next1);
    CompactionShrinks(files, c, files1);
  }

  lemma ReadsAfterRun(top: set<Entry>, files: seq<seq<FileMetaData>>, pick: seq<FileMetaData>, sizeLimit: nat, isManual: bool,
                      maxGrandParentOverlap: nat, smallest: nat, c: Change, run: Run, files1: seq<seq<FileMetaData>>, h: seq<Op>)
    requires ValidVersion(files)
    requires Compacts(files, pick, sizeLimit, isManual, maxGrandParentOverlap, smallest, c, run, files1)
    requires FromHistory(top + VersionEntries(files), h) && Below(top, VersionEntries(files))
    requires run.moved ==> VersionEntries(files1) == VersionEntries(files)
    ensures NextLevelBoundaryClosed(files, c) ==> ReadsStay(top + VersionEntries(files), top + VersionEntries(files1), smallest)
  {
    hide Less, Sorted, FromHistory, VersionEntries, EntrySet, Follows, MeetsSpan, Selected, Installs, LevelEntries, KeptSet;
    hide NextLevelBoundaryClosed, NothingSurfaces, ReadsStay, Below, ValidVersion, BaseAt;
    ReadsAfterCompaction(top, files, c, files1, run.input, smallest, h, run.moved);
  }

  /** No read at or after the smallest snapshot tells the two apart. */
  ghost predicate ReadsStay(es: set<Entry>, es1: set<Entry>, smallest: nat) {
    forall user :: UserReadsStay(es, es1, user, smallest)
  }

  lemma StayMatches(es: set<Entry>, es1: set<Entry>, h: seq<Op>, smallest: nat)
    requires ReadsMatch(es, h, smallest) && ReadsStay(es, es1, smallest)
    ensures ReadsMatch(es1, h, smallest)
  {
    hide ReadsMatch, SameRead;
    forall user, s | s >= smallest ensures SameRead(es, es1, user, s) {
      assert UserReadsStay(es, es1, user, smallest);
    }
    SameReadsMatch(es, es1, h, smallest);
  }

  /** No user key comes back where a reader sees it. */
  ghost predicate NothingSurfaces(top: set<Entry>, files: seq<seq<FileMetaData>>, c: Change, input: seq<Entry>, smallest: nat) {
    && |files| == NUM_LEVELS
    && forall user :: !Resurrects(input, smallest, BaseAt(files, c.level), Under(files, c), user) ||
                      Seen(top + Over(files, c), user, smallest)
  }

  lemma ClosedIsSafe(top: set<Entry>, files: seq<seq<FileMetaData>>, c: Change, input: seq<Entry>, smallest: nat)
    requires ValidVersion(files) && c.level + 1 < NUM_LEVELS && Selected(c.level, files, c.inputs0, c.inputs1)
    requires EntrySet(input) == InputEntries(c)
    ensures NextLevelBoundaryClosed(files, c) ==> NothingSurfaces(top, files, c, input, smallest)
  {
    hide Resurrects, NextLevelBoundaryClosed, Selected, SortedLevel, NumberedByAge, ShallowerIsNewer, Less, Sorted, Seen;
    if NextLevelBoundaryClosed(files, c) {
      forall user ensures !Resurrects(input, smallest, BaseAt(files, c.level), Under(files, c), user) {
        BoundaryClosedIsSafe(files, c, input, smallest, user);
      }
    }
  }

  lemma SmallerVersion(mem: set<Entry>, imm: set<Entry>, low: set<Entry>, low1: set<Entry>, h: seq<Op>)
    requires Below(mem, imm + low) && Below(imm, low) && FromHistory(mem + imm + low, h) && low1 <= low
    ensures Below(mem, imm + low1) && Below(imm, low1) && FromHistory(mem + imm + low1, h)
    ensures Below(mem + imm, low)
  {
    hide Less;
  }

  /** A moved file changes no read. A merge changes none exactly when nothing surfaces, which a closed
      boundary at the next level ensures. */
  lemma ReadsAfterCompaction(top: set<Entry>, files: seq<seq<FileMetaData>>, c: Change, files1: seq<seq<FileMetaData>>,
                             input: seq<Entry>, smallest: nat, h: seq<Op>, moved: bool)
    requires ValidVersion(files) && c.level + 1 < NUM_LEVELS
    requires Selected(c.level, files, c.inputs0, c.inputs1) && Installs(files, c, files1)
    requires Sorted(input) && EntrySet(input) == InputEntries(c)
    requires FromHistory(top + VersionEntries(files), h) && Below(top, VersionEntries(files))
    requires moved ==> VersionEntries(files1) == VersionEntries(files)
    requires !moved ==> LevelEntries(c.outputs) == KeptSet(input, smallest, BaseAt(files, c.level))
    ensures var es, es1 := top + VersionEntries(files), top + VersionEntries(files1);
            && (moved ==> ReadsStay(es, es1, smallest))
            && (!moved ==> (ReadsStay(es, es1, smallest) <==> NothingSurfaces(top, files, c, input, smallest)))
            && (NextLevelBoundaryClosed(files, c) ==> ReadsStay(es, es1, smallest))
  {
    hide Resurrects, Selected, SortedLevel, NumberedByAge, ShallowerIsNewer, Less, Sorted, Installs, VersionEntries, Seen;
    hide SameRead, FromHistory, Below, KeptSet, EntrySet, LevelEntries, Over, Under, NextLevelBoundaryClosed;
    var es, es1 := top + VersionEntries(files), top + VersionEntries(files1);
    HistoryIsDistinct(es, h);
    if moved {
      forall user ensures UserReadsStay(es, es1, user, smallest) {
        ReadsItself(es, user, smallest);
      }
    } else {
      hide UserReadsStay;
      forall user
        ensures UserReadsStay(es, es1, user, smallest) <==>
                  (!Resurrects(input, smallest, BaseAt(files, c.level), Under(files, c), user) ||
                   Seen(top + Over(files, c), user, smallest))
      {
        CompactionReadsExact(top, files, c, files1, input, smallest, BaseAt(files, c.level), user);
      }
      ClosedIsSafe(top, files, c, input, smallest);
    }
  }

  lemma ReadsItself(es: set<Entry>, user: UserKey, smallest: nat)
    requires DistinctSequences(es)
    ensures UserReadsStay(es, es, user, smallest)
  {
  }

  lemma InputKeys(es: set<Entry>, h: seq<Op>, files: seq<seq<FileMetaData>>, c: Change)
    requires FromHistory(es, h) && VersionEntries(files) <= es && c.level + 1 < |files|
    requires Selected(c.level, files, c.inputs0, c.inputs1)
    ensures InputEntries(c) <= es && SameKeySameEntry(LevelEntries(c.inputs0 + c.inputs1))
  {
    hide Less, Sorted, SpansUsers, NoOlderLeftOut, Overlaps, EntryOf;
    JoinEntries(c.inputs0, c.inputs1);
    assert LevelEntries(c.inputs0) <= LevelEntries(files[c.level]) <= VersionEntries(files);
    assert LevelEntries(c.inputs1) <= LevelEntries(files[c.level + 1]) <= VersionEntries(files);
  }

  lemma JoinEntries(fs: seq<FileMetaData>, gs: seq<FileMetaData>)
    ensures LevelEntries(fs + gs) == LevelEntries(fs) + LevelEntries(gs)
  {
    hide Less, Sorted;
  }

  lemma TakenFromLevel(files: seq<seq<FileMetaData>>, c: Change)
    requires c.level + 1 < |files| && Selected(c.level, files, c.inputs0, c.inputs1)
    ensures forall f :: f in c.inputs0 ==> f in files[c.level]
    ensures forall f :: f in c.inputs1 ==> f in files[c.level + 1]
  {
    hide Less, Sorted, SpansUsers, NoOlderLeftOut, Overlaps;
  }

  /** Run the compaction loop over the merged inputs. */
  method MergeInputs(level: nat, files: seq<seq<FileMetaData>>, input: seq<Entry>, smallest: nat, next: nat,
                     stopBefore: nat -> bool, full: nat -> bool, sizes: nat -> nat)
      returns (outputs: seq<FileMetaData>, ghost places: seq<seq<nat>>)
    requires Sorted(input) && smallest < MAX_SEQUENCE && ValidVersion(files) && level + 1 < NUM_LEVELS
    ensures Apart(Files(outputs)) && LevelEntries(outputs) == KeptSet(input, smallest, BaseAt(files, level))
    ensures forall i :: 0 <= i < |outputs| ==> outputs[i].number == next + i
    ensures FilesAt(input, outputs, places) && CutWhereAsked(places, stopBefore, full)
  {
    hide Less, Sorted, Apart, LevelEntries, KeptSet, IsBase, BaseAt, Kept, PlacesOf, CutWhereAsked;
    var state := new CompactionState(level, files);
    var tables;
    tables, places := state.DoCompactionWork(input, smallest, stopBefore, full);
    outputs := FinishTables(input, smallest, BaseAt(files, level), tables, next, sizes);
  }

  /** Number the tables the compaction loop produced. */
  method FinishTables(input: seq<Entry>, smallest: nat, ghost base: UserKey -> bool, tables: seq<seq<Entry>>,
                      next: nat, sizes: nat -> nat)
      returns (outputs: seq<FileMetaData>)
    requires Sorted(input)
    requires Concat(tables) == Kept(input, |input|, smallest, base) && forall t :: t in tables ==> t != []
    ensures |outputs| == |tables| && Apart(Files(outputs)) && LevelEntries(outputs) == KeptSet(input, smallest, base)
    ensures forall i :: 0 <= i < |outputs| ==> outputs[i].number == next + i && outputs[i].entries == tables[i]
  {
    hide Less, Sorted, Kept, Apart, LevelEntries;
    KeptIsSorted(input, |input|, smallest, base);
    CutsAreApart(tables);
    assert forall i :: 0 <= i < |tables| ==> tables[i] in tables;
    outputs := NumberTables(tables, next, sizes);
    OutputsAreGood(tables, outputs);
  }

  lemma OutputsFit(files: seq<seq<FileMetaData>>, c: Change, input: seq<Entry>, smallest: nat, next: nat, next1: nat, moved: bool)
    requires c.level + 1 < |files| && EntrySet(input) == InputEntries(c)
    requires moved ==> c.outputs == c.inputs0 && |c.inputs0| == 1 && next1 == next
    requires !moved ==>
      && LevelEntries(c.outputs) == KeptSet(input, smallest, BaseAt(files, c.level))
      && Apart(Files(c.outputs))
      && next1 == next + |c.outputs|
      && forall i :: 0 <= i < |c.outputs| ==> c.outputs[i].number == next + i
    ensures GoodOutputs(c) && OwnNumbers(files, c, next, next1)
  {
    hide Less, Sorted, Kept;
    if moved {
      assert c.inputs0 == [c.inputs0[0]];
    } else {
      KeptIsSubset(input, smallest, BaseAt(files, c.level));
    }
  }

  /** One edit per level: the inputs go, the outputs come. */
  method InstallCompactionResults(files: seq<seq<FileMetaData>>, c: Change, ghost next: nat, ghost next1: nat)
      returns (files1: seq<seq<FileMetaData>>)
    requires LevelsOrdered(files) && NumbersUnique(files, next) && |files| == NUM_LEVELS && c.level + 1 < NUM_LEVELS
    requires Selected(c.level, files, c.inputs0, c.inputs1) && OwnNumbers(files, c, next, next1)
    ensures Installs(files, c, files1) && LevelsOrdered(files1)
  {
    hide Less, Sorted, Ordered, NumbersUnique, NoDoubleAdds, Selected, OwnNumbers, Edited, UnusedNumbers, WeaklyOrdered, NoneRepeats, Saves, Firsts;
    TakenFromLevel(files, c);
    var edit0, edit1 := LevelEdit(Numbers(c.inputs0), []), LevelEdit(Numbers(c.inputs1), c.outputs);
    NoneUnused(files[c.level]);
    UnusedAreOnce(files[c.level], edit0);
    OutputsUnused(files, c, next, next1);
    UnusedAreOnce(files[c.level + 1], edit1);
    OrderedIsStrict(files[c.level]);
    OrderedIsStrict(files[c.level + 1]);
    var list0 := LogAndApply(files[c.level], edit0);
    var list1 := LogAndApply(files[c.level + 1], edit1);
    DeletesByNumber(files, next, c.level, c.inputs0, []);
    DeletesByNumber(files, next, c.level + 1, c.inputs1, c.outputs);
    files1 := files[c.level := list0][c.level + 1 := list1];
    assert Files(files[c.level]) - Files(c.inputs0) + Files([]) == Files(files[c.level]) - Files(c.inputs0);
  }

  lemma NoneUnused(level: seq<FileMetaData>)
    ensures UnusedNumbers(level, [])
  {
  }

  lemma OutputsUnused(files: seq<seq<FileMetaData>>, c: Change, next: nat, next1: nat)
    requires NumbersUnique(files, next) && c.level + 1 < |files| && OwnNumbers(files, c, next, next1)
    requires forall f :: f in c.inputs0 ==> f in files[c.level]
    ensures UnusedNumbers(files[c.level + 1], c.outputs)
  {
    hide Less, Sorted;
    assert forall i :: 0 <= i < |c.outputs| ==> c.outputs[i] in c.outputs;
    forall f, g | f in files[c.level + 1] && g in c.outputs ensures f.number != g.number {
      if c.inputs0 == [g] {
        assert g in c.inputs0;
      }
    }
  }

  lemma KeysInRange(es: set<Entry>, h: seq<Op>, files: seq<seq<FileMetaData>>)
    requires FromHistory(es, h) && |h| < MAX_SEQUENCE && VersionEntries(files) <= es
    ensures forall l, f :: 0 <= l < |files| && f in files[l] ==> f.Largest().sequence <= MAX_SEQUENCE
  {
    hide Less, Sorted;
    forall l, f | 0 <= l < |files| && f in files[l] ensures f.Largest().sequence <= MAX_SEQUENCE {
      var e := f.entries[|f.entries| - 1];
      assert e in f.entries;
      assert e in LevelEntries(files[l]);
      assert e in VersionEntries(files);
    }
  }

  lemma FlushLevelInRange(files: seq<seq<FileMetaData>>, smallest: UserKey, largest: UserKey, maxGrandParentOverlap: nat, level: nat)
    requires |files| == NUM_LEVELS && IsFlushLevel(files, smallest, largest, maxGrandParentOverlap, level)
    ensures level < NUM_LEVELS
  {
  }

  /** Installing a flushed table in the level chosen for it. */
  lemma AddedFile(files: seq<seq<FileMetaData>>, next: nat, level: nat, f: FileMetaData, list: seq<FileMetaData>)
    requires ValidVersion(files) && LevelsOrdered(files) && NumbersUnique(files, next) && level < NUM_LEVELS
    requires f.number == next && FitsLevel(files, level, f)
    requires Below(EntrySet(f.entries), VersionEntries(files))
    requires Ordered(files[level]) && NoDoubleAdds(files[level], [LevelEdit([], [f])]) ==>
               Arranges(list, Edited(Files(files[level]), LevelEdit([], [f])))
    ensures var files1 := files[level := list];
            && ValidVersion(files1) && LevelsOrdered(files1) && NumbersUnique(files1, next + 1)
            && InstallsTable(files, level, f, files1)
            && VersionEntries(files1) == VersionEntries(files) + EntrySet(f.entries)
  {
    hide Less, Sorted, Ordered, Below, SortedLevel, NumberedByAge, ShallowerIsNewer, FitsLevel, NumbersUnique, NoDoubleAdds;
    hide VersionEntries;
    var files1 := files[level := list];
    NewNumber(files, next, level, f);
    UnusedAreOnce(files[level], LevelEdit([], [f]));
    assert Edited(Files(files[level]), LevelEdit([], [f])) == Files(files[level]) + {f};
    FlushKeepsVersion(files, level, f, files1);
    NewNumberStaysUnique(files, next, level, f, list);
  }

  lemma NewNumber(files: seq<seq<FileMetaData>>, next: nat, level: nat, f: FileMetaData)
    requires NumbersUnique(files, next) && level < |files| && f.number == next
    ensures UnusedNumbers(files[level], [f])
    ensures forall l, g :: 0 <= l < |files| && g in files[l] ==> g.number < f.number
  {
    hide Less, Sorted;
  }

  lemma NewNumberStaysUnique(files: seq<seq<FileMetaData>>, next: nat, level: nat, f: FileMetaData, list: seq<FileMetaData>)
    requires NumbersUnique(files, next) && level < |files| && f.number == next
    requires Files(list) == Files(files[level]) + {f}
    ensures NumbersUnique(files[level := list], next + 1)
  {
    hide Less, Sorted;
    var files1 := files[level := list];
    forall l, g | 0 <= l < |files1| && g in files1[l] ensures g in files[l] || (l == level && g == f) {
      assert g in Files(files1[l]);
    }
  }

  lemma NumbersGrow(files: seq<seq<FileMetaData>>, next: nat)
    requires NumbersUnique(files, next)
    ensures NumbersUnique(files, next + 1)
  {
  }

  lemma NoEntries(es: seq<Entry>)
    ensures es == [] ==> EntrySet(es) == {}
  {
  }

  lemma BelowParts(top: set<Entry>, mid: set<Entry>, low: set<Entry>, low1: set<Entry>)
    requires Below(top, mid + low) && low1 == low + mid
    ensures Below(top, {} + low1) && Below({}, low1) && top + mid + low == top + {} + low1
  {
    hide Less;
  }

  /** What recording one more operation on top of the memtable preserves. */
  lemma NewEntry(top: set<Entry>, lower: set<Entry>, h: seq<Op>, op: Op, intact: bool, oldest: nat, oldest1: nat)
    requires FromHistory(top + lower, h) && Below(top, lower)
    requires (intact ==> ReadsMatch(top + lower, h, oldest)) && oldest <= |h| && oldest <= oldest1
    ensures var e := EntryOf(op, |h| + 1);
            && Below(top + {e}, lower)
            && FromHistory(top + {e} + lower, h + [op])
            && (intact ==> ReadsMatch(top + {e} + lower, h + [op], oldest1))
            && forall x :: x in top + lower ==> x.key != e.key
  {
    var e := EntryOf(op, |h| + 1);
    hide Less, ReadsMatch, EntryOf, MapAfter;
    NewEntryIsAbove(top + lower, h, op);
    AddAbove(top, lower, e);
    FromHistoryAppend(top + lower, h, op);
    assert top + lower + {e} == top + {e} + lower;
    if intact {
      AppendKeepsReads(top + lower, h, oldest, op);
      LaterReads(top + {e} + lower, h + [op], oldest, oldest1);
    }
  }

  lemma MemKeys(mem: seq<Entry>, lower: set<Entry>, e: Entry)
    requires forall x :: x in EntrySet(mem) + lower ==> x.key != e.key
    ensures forall x :: x in mem ==> x.key != e.key
  {
    assert forall x :: x in mem ==> x in EntrySet(mem);
  }

  lemma AddAbove(top: set<Entry>, es: set<Entry>, e: Entry)
    requires Below(top, es) && Below({e}, top + es)
    ensures Below(top + {e}, es)
  {
    hide Less;
  }

  lemma LaterReads(es: set<Entry>, h: seq<Op>, oldest: nat, oldest1: nat)
    requires ReadsMatch(es, h, oldest) && oldest <= oldest1
    ensures ReadsMatch(es, h, oldest1)
  {
  }

  lemma NothingToSee(user: UserKey, snapshot: nat)
    ensures IsNewest({}, user, snapshot, None)
  {
  }

  lemma ReadIsHistory(es: set<Entry>, h: seq<Op>, oldest: nat, user: UserKey, s: nat, e: Option<Entry>)
    requires ReadsMatch(es, h, oldest) && oldest <= s <= |h| && IsNewest(es, user, s, e)
    ensures ValueOf(e) == ReadAfter(h[..s], user)
  {
  }

  lemma HitOnTop(top: set<Entry>, es: set<Entry>, user: UserKey, snapshot: nat, e: Entry)
    requires Below(top, es) && IsNewest(top, user, snapshot, Some(e))
    ensures IsNewest(top + es, user, snapshot, Some(e))
  {
    forall x | x in es && Visible(x, user, snapshot) ensures x.key.sequence <= e.key.sequence {
      assert Less(e.key, x.key);
    }
  }

  lemma MissOnTop(top: set<Entry>, es: set<Entry>, user: UserKey, snapshot: nat, r: Option<Entry>)
    requires IsNewest(top, user, snapshot, None) && IsNewest(es, user, snapshot, r)
    ensures IsNewest(top + es, user, snapshot, r)
  {
  }
}
