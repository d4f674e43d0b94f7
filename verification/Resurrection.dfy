/** The source extends only the first input list of a compaction to a user-key boundary, not the
    second (db/version_set.cc:1407-1411). A concrete version on which a deleted key comes back. */
module Resurrection {
  import opened Keys
  import opened Versions
  import opened Inputs
  import opened Compaction
  import opened Store
  import opened Edits
  import opened Steps
  import opened History
  import opened Database

  const B: UserKey := 1.0
  const C: UserKey := 2.0

  /** Level 1 holds a new value of B. */
  const UPPER: FileMetaData := TableFile(10, 1, [Entry(InternalKey(B, 9, Value), [1])])

  /** Level 2 holds an old value of B and, at its end, the deletion of C ... */
  const LOWER: FileMetaData :=
    TableFile(5, 1, [Entry(InternalKey(B, 4, Value), [0]), Entry(InternalKey(C, 7, Deletion), [])])

  /** ... whose deleted value is in the next file. */
  const NEXT: FileMetaData := TableFile(6, 1, [Entry(InternalKey(C, 3, Value), [2])])

  function ExampleVersion(): (r: seq<seq<FileMetaData>>)
    ensures |r| == NUM_LEVELS && r[1] == [UPPER] && r[2] == [LOWER, NEXT]
    ensures forall l :: 0 <= l < NUM_LEVELS && l != 1 && l != 2 ==> r[l] == []
  {
    [[], [UPPER], [LOWER, NEXT], [], [], [], []]
  }

  const EXAMPLE: Change := Change(1, [UPPER], [LOWER], [])

  const MERGED: seq<Entry> := [UPPER.entries[0], LOWER.entries[0], LOWER.entries[1]]

  lemma Contents()
    ensures forall e :: e in UPPER.entries <==> e == UPPER.entries[0]
    ensures forall e :: e in LOWER.entries <==> e == LOWER.entries[0] || e == LOWER.entries[1]
    ensures forall e :: e in NEXT.entries <==> e == NEXT.entries[0]
    ensures Newer(UPPER.entries, LOWER.entries) && Newer(UPPER.entries, NEXT.entries)
    ensures SortedLevel([UPPER]) && SortedLevel([LOWER, NEXT]) && Sorted(MERGED)
  {
  }

  lemma ExampleIsValid()
    ensures ValidVersion(ExampleVersion())
  {
    hide ExampleVersion, Less, Sorted, Newer, SortedLevel, UPPER, LOWER, NEXT;
    Contents();
    TwoLevels(ExampleVersion(), UPPER, LOWER, NEXT);
  }

  lemma TwoLevels(files: seq<seq<FileMetaData>>, f: FileMetaData, g: FileMetaData, h: FileMetaData)
    requires |files| == NUM_LEVELS && files[1] == [f] && files[2] == [g, h]
    requires forall l :: 0 <= l < NUM_LEVELS && l != 1 && l != 2 ==> files[l] == []
    requires Newer(f.entries, g.entries) && Newer(f.entries, h.entries)
    requires SortedLevel([f]) && SortedLevel([g, h])
    ensures ValidVersion(files)
  {
    hide Less, Sorted, Newer, SortedLevel;
    NoFilesInOrder();
  }

  lemma NoFilesInOrder()
    ensures SortedLevel([]) && NumberedByAge([]) && Ordered([])
  {
  }

  /** A history that leads to these entries; the last operation is number 9. */
  const OPS: seq<Op> := [Delete(B), Delete(B), Put(C, [2]), Put(B, [0]), Delete(C), Delete(C), Delete(C), Delete(B), Put(B, [1])]

  lemma ExampleEntries()
    ensures VersionEntries(ExampleVersion()) == {UPPER.entries[0], LOWER.entries[0], LOWER.entries[1], NEXT.entries[0]}
  {
    hide ExampleVersion, Less, Sorted;
    Contents();
    var files := ExampleVersion();
    assert UPPER in files[1] && files[2][0] == LOWER && files[2][1] == NEXT;
    assert LevelEntries([UPPER]) == {UPPER.entries[0]};
    assert LevelEntries([LOWER, NEXT]) == {LOWER.entries[0], LOWER.entries[1], NEXT.entries[0]};
    assert forall l :: 0 <= l < NUM_LEVELS && l != 1 && l != 2 ==> LevelEntries(files[l]) == {};
  }

  lemma OpsLeave()
    ensures MapAfter(OPS) == map[B := [1]]
  {
    hide MapAfter;
    NothingYet();
    MapStep(0);
    MapStep(1);
    MapStep(2);
    MapStep(3);
    MapStep(4);
    MapStep(5);
    MapStep(6);
    MapStep(7);
    MapStep(8);
    assert OPS[..9] == OPS;
  }

  lemma NothingYet()
    ensures MapAfter(OPS[..0]) == map[]
  {
  }

  lemma MapStep(k: nat)
    requires k < |OPS|
    ensures MapAfter(OPS[..k + 1]) == match OPS[k]
                                      case Put(user, v) => MapAfter(OPS[..k])[user := v]
                                      case Delete(user) => MapAfter(OPS[..k]) - {user}
  {
    assert OPS[..k + 1][..k] == OPS[..k];
  }

  /** The version is one of a store in good order: every level is ordered, file numbers are unique,
      every entry stems from the history, and readers see the map it leaves. */
  lemma ExampleIsStore(db: Database)
    requires db.mem == [] && db.imm == None && db.files == ExampleVersion() && db.nextFileNumber == 11
    requires db.lastSequence == 9 && db.snapshots == [] && db.history == OPS
    ensures db.Valid()
  {
    hide ExampleVersion, ValidVersion, LevelsOrdered, NumbersUnique, VersionEntries, FromHistory, ReadsMatch, Layered, OPS, UPPER, LOWER, NEXT;
    ExampleIsValid();
    ExampleIsListed();
    AloneIsLayered(ExampleVersion(), 11);
    ExampleEntries();
    ExampleReads();
    assert db.All() == VersionEntries(ExampleVersion());
  }

  lemma AloneIsLayered(files: seq<seq<FileMetaData>>, next: nat)
    requires ValidVersion(files) && LevelsOrdered(files) && NumbersUnique(files, next)
    ensures Layered([], None, files, next)
  {
    hide ValidVersion, LevelsOrdered, NumbersUnique, Less;
  }

  lemma ExampleIsListed()
    ensures LevelsOrdered(ExampleVersion()) && NumbersUnique(ExampleVersion(), 11)
  {
    hide ExampleVersion, Sorted;
    TwoLevelsListed(ExampleVersion(), UPPER, LOWER, NEXT);
  }

  lemma TwoLevelsListed(files: seq<seq<FileMetaData>>, f: FileMetaData, g: FileMetaData, h: FileMetaData)
    requires |files| == NUM_LEVELS && files[1] == [f] && files[2] == [g, h]
    requires forall l :: 0 <= l < NUM_LEVELS && l != 1 && l != 2 ==> files[l] == []
    requires BySmallestKey(g, h) && f.number == 10 && g.number == 5 && h.number == 6
    ensures LevelsOrdered(files) && NumbersUnique(files, 11)
  {
    hide Less, Sorted, BySmallestKey;
    NoFilesInOrder();
    assert Ordered([f]) && Ordered([g, h]);
    forall l, x | 0 <= l < |files| && x in files[l] ensures (l == 1 && x == f) || (l == 2 && (x == g || x == h)) {
      assert l == 1 || l == 2;
    }
  }

  lemma ExampleReads()
    ensures var es := {UPPER.entries[0], LOWER.entries[0], LOWER.entries[1], NEXT.entries[0]};
            |OPS| == 9 && FromHistory(es, OPS) && ReadsMatch(es, OPS, 9)
  {
    hide MapAfter;
    OpsLeave();
    assert OPS[..9] == OPS;
    var es := {UPPER.entries[0], LOWER.entries[0], LOWER.entries[1], NEXT.entries[0]};
    forall user, r | IsNewest(es, user, 9, r) ensures ValueOf(r) == ReadAfter(OPS, user) {
      if user == B {
        assert Visible(UPPER.entries[0], user, 9);
      } else if user == C {
        assert Visible(LOWER.entries[1], user, 9);
      }
    }
  }

  /** The selection the code makes when it compacts level 1. */
  lemma ExampleIsSelected()
    ensures Selected(1, ExampleVersion(), EXAMPLE.inputs0, EXAMPLE.inputs1)
    ensures GoodPick(1, ExampleVersion()[1], [UPPER])
  {
    hide ExampleVersion;
    var level2 := ExampleVersion()[2];
    assert level2[..1] == [LOWER] && [LOWER][..0] == [];
    assert Overlapping([LOWER], Some(B), Some(B)) == [LOWER];
    assert Overlapping(level2, Some(B), Some(B)) == [LOWER];
    assert UPPER in [UPPER];
    assert SpansUsers([UPPER], B, B);
    assert ExampleVersion()[1][0..1] == [UPPER];
  }

  /** Every requirement of the compaction is met, yet C, deleted for every reader, comes back. */
  lemma LeftOutBoundaryLosesDeletion()
    ensures var files := ExampleVersion();
            && ValidVersion(files) && Selected(1, files, EXAMPLE.inputs0, EXAMPLE.inputs1)
            && Sorted(MERGED) && EntrySet(MERGED) == InputEntries(EXAMPLE)
            && !NextLevelBoundaryClosed(files, EXAMPLE)
            && Resurrects(MERGED, 9, BaseAt(files, 1), Under(files, EXAMPLE), C)
            && !Seen(Over(files, EXAMPLE), C, 9)
            && !SameRead(EntrySet(MERGED) + Under(files, EXAMPLE),
                         KeptSet(MERGED, 9, BaseAt(files, 1)) + Under(files, EXAMPLE), C, 9)
  {
    hide ExampleVersion, ValidVersion, Selected, Less, Sorted, Kept, Under, Over, InputEntries, NextLevelBoundaryClosed;
    var files := ExampleVersion();
    ExampleIsValid();
    ExampleIsSelected();
    Contents();
    MergedIsInput();
    UnderIsNext();
    DeletionIsNewest();
    NothingOver();
    assert BaseAt(files, 1)(C);
    assert Resurrects(MERGED, 9, BaseAt(files, 1), Under(files, EXAMPLE), C);
    ResurrectionChangesRead(MERGED, 9, BaseAt(files, 1), Under(files, EXAMPLE), C);
  }

  lemma NothingOver()
    ensures Over(ExampleVersion(), EXAMPLE) == {}
  {
    hide ExampleVersion, Less, Sorted;
    var files := ExampleVersion();
    assert UPPER in EXAMPLE.inputs0 && LOWER in EXAMPLE.inputs1;
    forall l, f | 0 <= l < |files| && f in files[l] ensures !IsOver(files, EXAMPLE, l, f) {
      if f == NEXT {
        assert After(EXAMPLE, NEXT);
      }
    }
  }

  lemma DeletionIsNewest()
    ensures IsNewest({UPPER.entries[0], LOWER.entries[0], LOWER.entries[1]}, C, 9, Some(LOWER.entries[1]))
    ensures IsNewest({NEXT.entries[0]}, C, 9, Some(NEXT.entries[0]))
    ensures Below({UPPER.entries[0], LOWER.entries[0], LOWER.entries[1]}, {NEXT.entries[0]})
    ensures DistinctSequences({UPPER.entries[0], LOWER.entries[0], LOWER.entries[1]} + {NEXT.entries[0]})
  {
  }

  lemma MergedIsInput()
    ensures EntrySet(MERGED) == InputEntries(EXAMPLE)
    ensures EntrySet(MERGED) == {UPPER.entries[0], LOWER.entries[0], LOWER.entries[1]}
  {
    hide Less, Sorted;
    Contents();
    assert UPPER in [UPPER] && LOWER in [LOWER];
    assert LevelEntries([UPPER]) == {UPPER.entries[0]};
    assert LevelEntries([LOWER]) == {LOWER.entries[0], LOWER.entries[1]};
  }

  lemma UnderIsNext()
    ensures Under(ExampleVersion(), EXAMPLE) == {NEXT.entries[0]}
    ensures !NextLevelBoundaryClosed(ExampleVersion(), EXAMPLE)
  {
    hide ExampleVersion, Less, Sorted;
    var files := ExampleVersion();
    Contents();
    assert files[2][1] == NEXT && NEXT in files[2];
    assert LOWER in EXAMPLE.inputs1 && UPPER in EXAMPLE.inputs0;
    assert After(EXAMPLE, NEXT) && IsUnder(files, EXAMPLE, 2, NEXT);
    forall l, f | 0 <= l < |files| && f in files[l] && IsUnder(files, EXAMPLE, l, f) ensures f == NEXT {
      assert l != 1;
    }
    forall e | e in NEXT.entries ensures e in Under(files, EXAMPLE) {
    }
  }
}
