/** What every step of the store keeps: the order of the levels and what readers see. */
module Store {
  import opened Keys
  import opened Versions
  import opened Edits
  import opened Inputs
  import opened Compaction

  /** Any two files of the set are apart in internal-key order. */
  ghost predicate Apart(s: set<FileMetaData>) {
    forall f, g :: f in s && g in s && f != g ==> Less(f.Largest(), g.Smallest()) || Less(g.Largest(), f.Smallest())
  }

  /** An ordered list of files that are apart is a sorted level. */
  lemma ApartIsSorted(fs: seq<FileMetaData>)
    requires Ordered(fs) && Apart(Files(fs))
    ensures SortedLevel(fs)
  {
    forall i, j | 0 <= i < j < |fs| ensures Less(fs[i].Largest(), fs[j].Smallest()) {
      assert fs[i] in Files(fs) && fs[j] in Files(fs) && BySmallestKey(fs[i], fs[j]);
      WithinFile(fs[j], fs[j].entries[|fs[j].entries| - 1]);
      if fs[i] == fs[j] {
        assert false;
      }
    }
  }

  lemma SortedIsApart(fs: seq<FileMetaData>)
    requires SortedLevel(fs)
    ensures Apart(Files(fs))
  {
    hide Less, Sorted;
    forall f, g | f in Files(fs) && g in Files(fs) && f != g
      ensures Less(f.Largest(), g.Smallest()) || Less(g.Largest(), f.Smallest())
    {
      var i :| 0 <= i < |fs| && fs[i] == f;
      var j :| 0 <= j < |fs| && fs[j] == g;
      if i < j {
        InOrder(fs, i, j);
      } else {
        InOrder(fs, j, i);
      }
    }
  }

  /** Where a compaction takes its files from and what it puts in their place. */
  datatype Change = Change(level: nat, inputs0: seq<FileMetaData>, inputs1: seq<FileMetaData>, outputs: seq<FileMetaData>)

  /** The output tables hold only entries of the inputs, and are apart. */
  ghost predicate GoodOutputs(c: Change) {
    && LevelEntries(c.outputs) <= LevelEntries(c.inputs0) + LevelEntries(c.inputs1)
    && Apart(Files(c.outputs))
  }

  /** `files1` is `files` with the inputs replaced by the outputs. */
  ghost predicate Installs(files: seq<seq<FileMetaData>>, c: Change, files1: seq<seq<FileMetaData>>)
    requires c.level + 1 < |files|
  {
    && |files1| == |files|
    && Arranges(files1[c.level], Files(files[c.level]) - Files(c.inputs0))
    && Arranges(files1[c.level + 1], Files(files[c.level + 1]) - Files(c.inputs1) + Files(c.outputs))
    && forall l :: 0 <= l < |files| && l != c.level && l != c.level + 1 ==> files1[l] == files[l]
  }

  /** A file of the next level that is left out lies wholly before or wholly after all inputs. */
  lemma LeftOutIsAside(files: seq<seq<FileMetaData>>, c: Change, lo: UserKey, hi: UserKey, g: FileMetaData, p: FileMetaData)
    requires c.level + 1 < |files| && SortedLevel(files[c.level + 1])
    requires SpansUsers(c.inputs0, lo, hi) && c.inputs1 == Overlapping(files[c.level + 1], Some(lo), Some(hi))
    requires g in files[c.level + 1] && g !in c.inputs1
    requires p in c.inputs0 || p in c.inputs1
    ensures g.Largest().user < lo || hi < g.Smallest().user
    ensures g.Largest().user < lo ==> Less(g.Largest(), p.Smallest())
    ensures hi < g.Smallest().user ==> Less(p.Largest(), g.Smallest())
  {
    hide SortedLevel, Sorted;
    WithinFile(g, g.entries[0]);
    if p in c.inputs1 {
      SortedIsApart(files[c.level + 1]);
      assert p in Files(files[c.level + 1]) && g in Files(files[c.level + 1]);
    }
  }

  lemma InputOf(c: Change, o: FileMetaData, x: Entry) returns (p: FileMetaData)
    requires GoodOutputs(c) && o in c.outputs && x in o.entries
    ensures (p in c.inputs0 || p in c.inputs1) && x in p.entries
  {
    assert x in LevelEntries(c.outputs);
    p :| (p in c.inputs0 || p in c.inputs1) && x in p.entries;
  }

  lemma OutputsAside(files: seq<seq<FileMetaData>>, c: Change, g: FileMetaData, o: FileMetaData)
    requires c.level + 1 < |files| && SortedLevel(files[c.level + 1])
    requires Selected(c.level, files, c.inputs0, c.inputs1) && GoodOutputs(c)
    requires g in files[c.level + 1] && g !in c.inputs1 && o in c.outputs
    ensures Less(g.Largest(), o.Smallest()) || Less(o.Largest(), g.Smallest())
  {
    hide SortedLevel, Sorted, NoOlderLeftOut, Overlaps;
    var lo, hi :| SpansUsers(c.inputs0, lo, hi) && c.inputs1 == Overlapping(files[c.level + 1], Some(lo), Some(hi));
    var first, last := o.entries[0], o.entries[|o.entries| - 1];
    var p := InputOf(c, o, first);
    var q := InputOf(c, o, last);
    LeftOutIsAside(files, c, lo, hi, g, p);
    LeftOutIsAside(files, c, lo, hi, g, q);
    WithinFile(p, first);
    WithinFile(q, last);
  }

  lemma NextLevelApart(files: seq<seq<FileMetaData>>, c: Change)
    requires c.level + 1 < |files| && SortedLevel(files[c.level + 1])
    requires Selected(c.level, files, c.inputs0, c.inputs1) && GoodOutputs(c)
    ensures Apart(Files(files[c.level + 1]) - Files(c.inputs1) + Files(c.outputs))
  {
    hide SortedLevel, Sorted, Selected, Less;
    SortedIsApart(files[c.level + 1]);
    var s := Files(files[c.level + 1]) - Files(c.inputs1) + Files(c.outputs);
    forall f, g | f in s && g in s && f != g
      ensures Less(f.Largest(), g.Smallest()) || Less(g.Largest(), f.Smallest())
    {
      if f in Files(c.outputs) && g !in Files(c.outputs) {
        OutputsAside(files, c, g, f);
      } else if f !in Files(c.outputs) && g in Files(c.outputs) {
        OutputsAside(files, c, f, g);
      }
    }
  }

  /** Where a file of the new version comes from, for the order of levels. */
  lemma NewPairIsOrdered(files: seq<seq<FileMetaData>>, c: Change, files1: seq<seq<FileMetaData>>,
                         l: nat, m: nat, f: FileMetaData, g: FileMetaData)
    requires ShallowerIsNewer(files) && c.level + 1 < |files|
    requires Selected(c.level, files, c.inputs0, c.inputs1) && GoodOutputs(c) && Installs(files, c, files1)
    requires l < m < |files| && f in files1[l] && g in files1[m]
    ensures Newer(f.entries, g.entries)
  {
    hide Less, Sorted, SpansUsers;
    assert f in Files(files1[l]) && g in Files(files1[m]);
    forall x, y | x in f.entries && y in g.entries && x.key.user == y.key.user ensures Less(x.key, y.key) {
      var lf, pf := Origin(files, c, files1, l, f, x);
      var lg, pg := Origin(files, c, files1, m, g, y);
      if lf < lg {
        assert Newer(pf.entries, pg.entries);
      } else {
        assert lf == lg == c.level && l == c.level;
        assert pf == f && pf !in c.inputs0 && pg in c.inputs0;
        assert Newer(pf.entries, pg.entries);
      }
    }
  }

  /** The old file that held entry `x` of a file of the new version: the file itself, or an input. */
  lemma Origin(files: seq<seq<FileMetaData>>, c: Change, files1: seq<seq<FileMetaData>>, l: nat, f: FileMetaData, x: Entry)
      returns (lp: nat, p: FileMetaData)
    requires c.level + 1 < |files| && l < |files|
    requires Selected(c.level, files, c.inputs0, c.inputs1) && GoodOutputs(c) && Installs(files, c, files1)
    requires f in files1[l] && x in f.entries
    ensures lp < |files| && p in files[lp] && x in p.entries
    ensures || (lp == l && p == f && (l == c.level ==> f !in c.inputs0))
            || (l == c.level + 1 && lp == c.level && p in c.inputs0)
            || (l == c.level + 1 && lp == l && p in c.inputs1)
  {
    hide Less, Sorted, SpansUsers, Ordered, Apart, NoOlderLeftOut, Overlaps;
    assert f in Files(files1[l]);
    lp, p := l, f;
    if l == c.level + 1 && f !in files[l] {
      p := InputOf(c, f, x);
      lp := if p in c.inputs0 then c.level else l;
    }
  }

  /** Installing a compaction keeps the version valid. */
  lemma CompactionKeepsVersion(files: seq<seq<FileMetaData>>, c: Change, files1: seq<seq<FileMetaData>>)
    requires ValidVersion(files) && c.level + 1 < NUM_LEVELS
    requires Selected(c.level, files, c.inputs0, c.inputs1) && GoodOutputs(c) && Installs(files, c, files1)
    ensures ValidVersion(files1)
  {
    hide SortedLevel, Selected, GoodOutputs, Newer, Ordered, Apart, Less, Sorted;
    NextLevelApart(files, c);
    ApartIsSorted(files1[c.level + 1]);
    if c.level > 0 {
      SortedIsApart(files[c.level]);
      ApartSubset(Files(files[c.level]), Files(files1[c.level]));
      ApartIsSorted(files1[c.level]);
    } else {
      assert forall f :: f in files1[0] ==> f in Files(files1[0]);
    }
    forall l, m, f, g | 0 <= l < m < |files1| && f in files1[l] && g in files1[m] ensures Newer(f.entries, g.entries) {
      NewPairIsOrdered(files, c, files1, l, m, f, g);
    }
  }

  lemma ApartSubset(s: set<FileMetaData>, t: set<FileMetaData>)
    requires Apart(s) && t <= s
    ensures Apart(t)
  {
  }

  ghost function InputEntries(c: Change): set<Entry> {
    LevelEntries(c.inputs0) + LevelEntries(c.inputs1)
  }

  /** The file starts after every user key of the first input list. */
  ghost predicate After(c: Change, g: FileMetaData) {
    forall p :: p in c.inputs0 ==> p.Largest().user < g.Smallest().user
  }

  /** Left-out files that lie below the inputs: deeper levels, and the next level past the inputs. */
  ghost predicate IsUnder(files: seq<seq<FileMetaData>>, c: Change, l: nat, f: FileMetaData)
    requires l < |files|
  {
    f in files[l] && (l >= c.level + 2 || (l == c.level + 1 && f !in c.inputs1 && After(c, f)))
  }

  /** The other left-out files. */
  ghost predicate IsOver(files: seq<seq<FileMetaData>>, c: Change, l: nat, f: FileMetaData)
    requires l < |files|
  {
    && f in files[l] && l < c.level + 2
    && (l == c.level ==> f !in c.inputs0)
    && (l == c.level + 1 ==> f !in c.inputs1 && !After(c, f))
  }

  ghost function Under(files: seq<seq<FileMetaData>>, c: Change): set<Entry> {
    set l, f, e | 0 <= l < |files| && f in files[l] && IsUnder(files, c, l, f) && e in f.entries :: e
  }

  ghost function Over(files: seq<seq<FileMetaData>>, c: Change): set<Entry> {
    set l, f, e | 0 <= l < |files| && f in files[l] && IsOver(files, c, l, f) && e in f.entries :: e
  }

  lemma AheadIsNewer(f: FileMetaData, g: FileMetaData)
    requires Less(f.Largest(), g.Smallest())
    ensures Newer(f.entries, g.entries)
  {
    forall x, y | x in f.entries && y in g.entries && x.key.user == y.key.user ensures Less(x.key, y.key) {
      WithinFile(f, x);
      WithinFile(g, y);
    }
  }

  lemma OverIsNewer(files: seq<seq<FileMetaData>>, c: Change, l: nat, f: FileMetaData, m: nat, g: FileMetaData)
    requires ValidVersion(files) && c.level + 1 < NUM_LEVELS && Selected(c.level, files, c.inputs0, c.inputs1)
    requires l < |files| && m < |files| && IsOver(files, c, l, f)
    requires IsUnder(files, c, m, g) || (m == c.level && g in c.inputs0) || (m == c.level + 1 && g in c.inputs1)
    ensures Newer(f.entries, g.entries)
  {
    hide Less, Sorted, Newer, SortedLevel, NumberedByAge, NoOlderLeftOut;
    if l == c.level + 1 {
      OverIsNewerBeside(files, c, f, m, g);
    } else if l == m {
      LeftOutNewer(files[l], c.inputs0, f, g);
    } else {
      UnderListed(files, c, m, g);
    }
  }

  lemma LeftOutNewer(files: seq<FileMetaData>, inputs: seq<FileMetaData>, f: FileMetaData, g: FileMetaData)
    requires NoOlderLeftOut(files, inputs) && f in files && f !in inputs && g in inputs
    ensures Newer(f.entries, g.entries)
  {
    hide Newer;
  }

  lemma UnderListed(files: seq<seq<FileMetaData>>, c: Change, m: nat, g: FileMetaData)
    requires c.level + 1 < |files| && m < |files| && Selected(c.level, files, c.inputs0, c.inputs1)
    requires IsUnder(files, c, m, g) || (m == c.level && g in c.inputs0) || (m == c.level + 1 && g in c.inputs1)
    ensures g in files[m]
  {
    hide Less, Sorted, NoOlderLeftOut, SpansUsers, After;
  }

  lemma OverIsNewerBeside(files: seq<seq<FileMetaData>>, c: Change, f: FileMetaData, m: nat, g: FileMetaData)
    requires ValidVersion(files) && c.level + 1 < NUM_LEVELS && Selected(c.level, files, c.inputs0, c.inputs1)
    requires m < |files| && IsOver(files, c, c.level + 1, f)
    requires IsUnder(files, c, m, g) || (m == c.level && g in c.inputs0) || (m == c.level + 1 && g in c.inputs1)
    ensures Newer(f.entries, g.entries)
  {
    hide Less, Sorted, Overlaps, Newer, SortedLevel, NumberedByAge, NoOlderLeftOut;
    UnderListed(files, c, m, g);
    if m <= c.level + 1 {
      assert SortedLevel(files[c.level + 1]);
      var lo, hi :| SpansUsers(c.inputs0, lo, hi) && c.inputs1 == Overlapping(files[c.level + 1], Some(lo), Some(hi));
      var first: FileMetaData :| first in c.inputs0;
      LeftOutIsAside(files, c, lo, hi, f, first);
      if m == c.level {
        DisjointShareNothing(f, g);
      } else if g in c.inputs1 {
        LeftOutIsAside(files, c, lo, hi, f, g);
        AheadIsNewer(f, g);
      } else {
        WithinFile(first, first.entries[0]);
        DisjointShareNothing(f, g);
      }
    }
  }

  lemma InputIsNewer(files: seq<seq<FileMetaData>>, c: Change, l: nat, f: FileMetaData, m: nat, g: FileMetaData)
    requires ValidVersion(files) && c.level + 1 < NUM_LEVELS && Selected(c.level, files, c.inputs0, c.inputs1)
    requires m < |files| && IsUnder(files, c, m, g)
    requires (l == c.level && f in c.inputs0) || (l == c.level + 1 && f in c.inputs1)
    ensures Newer(f.entries, g.entries)
  {
    hide Less, Sorted, Newer, SortedLevel, NumberedByAge, NoOlderLeftOut;
    if m == c.level + 1 {
      InputIsNewerBeside(files, c, l, f, g);
    } else {
      InputListed(files, c, l, f);
      assert g in files[m];
    }
  }

  lemma InputListed(files: seq<seq<FileMetaData>>, c: Change, l: nat, f: FileMetaData)
    requires c.level + 1 < |files| && Selected(c.level, files, c.inputs0, c.inputs1)
    requires (l == c.level && f in c.inputs0) || (l == c.level + 1 && f in c.inputs1)
    ensures f in files[l]
  {
    hide NoOlderLeftOut, SpansUsers;
  }

  lemma InputIsNewerBeside(files: seq<seq<FileMetaData>>, c: Change, l: nat, f: FileMetaData, g: FileMetaData)
    requires ValidVersion(files) && c.level + 1 < NUM_LEVELS && Selected(c.level, files, c.inputs0, c.inputs1)
    requires IsUnder(files, c, c.level + 1, g)
    requires (l == c.level && f in c.inputs0) || (l == c.level + 1 && f in c.inputs1)
    ensures Newer(f.entries, g.entries)
  {
    hide Less, Sorted, Overlaps, Newer, SortedLevel, NumberedByAge, NoOlderLeftOut, ShallowerIsNewer;
    assert SortedLevel(files[c.level + 1]);
    var lo, hi :| SpansUsers(c.inputs0, lo, hi) && c.inputs1 == Overlapping(files[c.level + 1], Some(lo), Some(hi));
    if l == c.level {
      DisjointShareNothing(f, g);
    } else {
      LeftOutIsAside(files, c, lo, hi, g, f);
      var first: FileMetaData :| first in c.inputs0 && first.Largest().user == hi;
      AheadIsNewer(f, g);
    }
  }

  lemma OverAboveRest(files: seq<seq<FileMetaData>>, c: Change)
    requires ValidVersion(files) && c.level + 1 < NUM_LEVELS && Selected(c.level, files, c.inputs0, c.inputs1)
    ensures Below(Over(files, c), InputEntries(c) + Under(files, c))
  {
    hide Less, Sorted, SortedLevel, Selected, ShallowerIsNewer, NumberedByAge, IsUnder, IsOver;
    forall x, y | x in Over(files, c) && y in InputEntries(c) + Under(files, c) && x.key.user == y.key.user
      ensures Less(x.key, y.key)
    {
      var l, f :| 0 <= l < |files| && f in files[l] && IsOver(files, c, l, f) && x in f.entries;
      if y in Under(files, c) {
        var m, g :| 0 <= m < |files| && g in files[m] && IsUnder(files, c, m, g) && y in g.entries;
        OverIsNewer(files, c, l, f, m, g);
      } else if y in LevelEntries(c.inputs0) {
        var g :| g in c.inputs0 && y in g.entries;
        OverIsNewer(files, c, l, f, c.level, g);
      } else {
        var g :| g in c.inputs1 && y in g.entries;
        OverIsNewer(files, c, l, f, c.level + 1, g);
      }
    }
  }

  lemma InputsAboveUnder(files: seq<seq<FileMetaData>>, c: Change)
    requires ValidVersion(files) && c.level + 1 < NUM_LEVELS && Selected(c.level, files, c.inputs0, c.inputs1)
    ensures Below(InputEntries(c), Under(files, c))
  {
    hide Less, Sorted, SortedLevel, Selected, ShallowerIsNewer, NumberedByAge, IsUnder;
    forall x, y | x in InputEntries(c) && y in Under(files, c) && x.key.user == y.key.user
      ensures Less(x.key, y.key)
    {
      var m, g :| 0 <= m < |files| && g in files[m] && IsUnder(files, c, m, g) && y in g.entries;
      if x in LevelEntries(c.inputs0) {
        var f :| f in c.inputs0 && x in f.entries;
        InputIsNewer(files, c, c.level, f, m, g);
      } else {
        var f :| f in c.inputs1 && x in f.entries;
        InputIsNewer(files, c, c.level + 1, f, m, g);
      }
    }
  }

  lemma EntriesSplit(files: seq<seq<FileMetaData>>, c: Change, files1: seq<seq<FileMetaData>>)
    requires |files| == NUM_LEVELS && c.level + 1 < NUM_LEVELS && Selected(c.level, files, c.inputs0, c.inputs1)
    requires Installs(files, c, files1)
    ensures VersionEntries(files) == Over(files, c) + InputEntries(c) + Under(files, c)
    ensures VersionEntries(files1) == Over(files, c) + LevelEntries(c.outputs) + Under(files, c)
  {
    hide Less, Sorted, SpansUsers, Ordered, NoOlderLeftOut, Overlaps, After;
    forall e | e in VersionEntries(files) ensures e in Over(files, c) + InputEntries(c) + Under(files, c) {
      var l :| 0 <= l < |files| && e in LevelEntries(files[l]);
      var f :| f in files[l] && e in f.entries;
      assert IsOver(files, c, l, f) || IsUnder(files, c, l, f) || f in c.inputs0 || f in c.inputs1;
    }
    forall e | e in VersionEntries(files1) ensures e in Over(files, c) + LevelEntries(c.outputs) + Under(files, c) {
      var l :| 0 <= l < |files1| && e in LevelEntries(files1[l]);
      var f :| f in files1[l] && e in f.entries;
      assert f in Files(files1[l]);
      assert (f in files[l] && (IsOver(files, c, l, f) || IsUnder(files, c, l, f))) || f in c.outputs;
    }
    forall e | e in Over(files, c) + Under(files, c) ensures e in VersionEntries(files1) && e in VersionEntries(files) {
      var l, f :| 0 <= l < |files| && f in files[l] && (IsOver(files, c, l, f) || IsUnder(files, c, l, f)) && e in f.entries;
      assert f in Files(files1[l]);
      assert e in LevelEntries(files1[l]) && e in LevelEntries(files[l]);
    }
    forall e | e in LevelEntries(c.outputs) ensures e in VersionEntries(files1) {
      var f :| f in c.outputs && e in f.entries;
      assert f in Files(files1[c.level + 1]);
      assert e in LevelEntries(files1[c.level + 1]);
    }
    forall e | e in InputEntries(c) ensures e in VersionEntries(files) {
      assert e in LevelEntries(files[c.level]) || e in LevelEntries(files[c.level + 1]);
    }
  }

  /** A compaction under whatever newer data is on `top` leaves every read at or after the smallest
      snapshot unchanged, for each user key it does not resurrect. */
  lemma CompactionKeepsReads(top: set<Entry>, files: seq<seq<FileMetaData>>, c: Change, files1: seq<seq<FileMetaData>>,
                             input: seq<Entry>, smallestSnapshot: nat, base: UserKey -> bool,
                             user: UserKey, snapshot: nat)
    requires ValidVersion(files) && c.level + 1 < NUM_LEVELS
    requires Selected(c.level, files, c.inputs0, c.inputs1) && Installs(files, c, files1)
    requires Sorted(input) && EntrySet(input) == InputEntries(c)
    requires LevelEntries(c.outputs) == KeptSet(input, smallestSnapshot, base)
    requires DistinctSequences(top + VersionEntries(files)) && Below(top, VersionEntries(files))
    requires smallestSnapshot <= snapshot
    requires !Resurrects(input, smallestSnapshot, base, Under(files, c), user)
    ensures SameRead(top + VersionEntries(files), top + VersionEntries(files1), user, snapshot)
  {
    hide Less, Sorted, Kept, Resurrects, SameRead, IsNewest, Over, Under, Installs, Selected, Below, DistinctSequences;
    hide SortedLevel, NumberedByAge, ShallowerIsNewer, LevelEntries, VersionEntries, EntrySet, KeptSet;
    EntriesSplit(files, c, files1);
    OverAboveRest(files, c);
    InputsAboveUnder(files, c);
    var over, under, mid, kept := Over(files, c), Under(files, c), InputEntries(c), LevelEntries(c.outputs);
    KeptIsSubset(input, smallestSnapshot, base);
    StackReads(top, over, mid, kept, under, input, smallestSnapshot, base, user, snapshot);
    assert top + VersionEntries(files) == (top + over) + (mid + under);
    assert top + VersionEntries(files1) == (top + over) + (kept + under);
  }

  lemma KeptIsSubset(input: seq<Entry>, smallestSnapshot: nat, base: UserKey -> bool)
    ensures KeptSet(input, smallestSnapshot, base) <= EntrySet(input)
  {
  }

  lemma StackReads(top: set<Entry>, over: set<Entry>, mid: set<Entry>, kept: set<Entry>, under: set<Entry>,
                   input: seq<Entry>, smallestSnapshot: nat, base: UserKey -> bool, user: UserKey, snapshot: nat)
    requires Sorted(input) && EntrySet(input) == mid && KeptSet(input, smallestSnapshot, base) == kept && kept <= mid
    requires DistinctSequences(top + (over + mid + under)) && Below(top, over + mid + under)
    requires Below(over, mid + under) && Below(mid, under)
    requires smallestSnapshot <= snapshot && !Resurrects(input, smallestSnapshot, base, under, user)
    ensures SameRead((top + over) + (mid + under), (top + over) + (kept + under), user, snapshot)
  {
    hide Less, Sorted, Kept, Resurrects, SameRead, IsNewest;
    assert top + (over + mid + under) == (top + over) + (mid + under);
    DistinctSubset(top + (over + mid + under), mid + under);
    DropRulePreservesReads(input, smallestSnapshot, base, under, user, snapshot);
    assert Below(top + over, mid + under);
    ReadsUnderNewerData(top + over, mid + under, kept + under, user, snapshot);
  }

  /** At the level of the store: a compaction changes no read of a user key at or after the smallest
      snapshot exactly when it does not resurrect the key, or newer data of the key hides what it does. */
  lemma CompactionReadsExact(top: set<Entry>, files: seq<seq<FileMetaData>>, c: Change, files1: seq<seq<FileMetaData>>,
                             input: seq<Entry>, smallestSnapshot: nat, base: UserKey -> bool, user: UserKey)
    requires ValidVersion(files) && c.level + 1 < NUM_LEVELS
    requires Selected(c.level, files, c.inputs0, c.inputs1) && Installs(files, c, files1)
    requires Sorted(input) && EntrySet(input) == InputEntries(c)
    requires LevelEntries(c.outputs) == KeptSet(input, smallestSnapshot, base)
    requires DistinctSequences(top + VersionEntries(files)) && Below(top, VersionEntries(files))
    ensures UserReadsStay(top + VersionEntries(files), top + VersionEntries(files1), user, smallestSnapshot)
            <==> (!Resurrects(input, smallestSnapshot, base, Under(files, c), user) ||
                  Seen(top + Over(files, c), user, smallestSnapshot))
  {
    hide Less, Sorted, Kept, Resurrects, SameRead, IsNewest, Over, Under, Installs, Selected, Below, DistinctSequences, Seen, UserReadsStay;
    hide SortedLevel, NumberedByAge, ShallowerIsNewer, LevelEntries, VersionEntries, EntrySet, KeptSet;
    EntriesSplit(files, c, files1);
    OverAboveRest(files, c);
    InputsAboveUnder(files, c);
    var over, under, mid, kept := Over(files, c), Under(files, c), InputEntries(c), LevelEntries(c.outputs);
    KeptIsSubset(input, smallestSnapshot, base);
    StackReadsExact(top, over, mid, kept, under, input, smallestSnapshot, base, user);
    assert top + VersionEntries(files) == (top + over) + (mid + under);
    assert top + VersionEntries(files1) == (top + over) + (kept + under);
  }

  lemma StackReadsExact(top: set<Entry>, over: set<Entry>, mid: set<Entry>, kept: set<Entry>, under: set<Entry>,
                        input: seq<Entry>, smallestSnapshot: nat, base: UserKey -> bool, user: UserKey)
    requires Sorted(input) && EntrySet(input) == mid && KeptSet(input, smallestSnapshot, base) == kept && kept <= mid
    requires DistinctSequences(top + (over + mid + under)) && Below(top, over + mid + under)
    requires Below(over, mid + under) && Below(mid, under)
    ensures UserReadsStay((top + over) + (mid + under), (top + over) + (kept + under), user, smallestSnapshot)
            <==> (!Resurrects(input, smallestSnapshot, base, under, user) || Seen(top + over, user, smallestSnapshot))
  {
    hide Less, Sorted, Kept, Resurrects, SameRead, IsNewest, Seen, KeptSet;
    assert top + (over + mid + under) == (top + over) + (mid + under);
    assert Below(top + over, mid + under);
    DistinctSubset(top + (over + mid + under), mid + under);
    if !Resurrects(input, smallestSnapshot, base, under, user) {
      forall s | s >= smallestSnapshot
        ensures SameRead((top + over) + (mid + under), (top + over) + (kept + under), user, s)
      {
        StackReads(top, over, mid, kept, under, input, smallestSnapshot, base, user, s);
      }
    } else if Seen(top + over, user, smallestSnapshot) {
      forall s | s >= smallestSnapshot
        ensures SameRead((top + over) + (mid + under), (top + over) + (kept + under), user, s)
      {
        StillSeen(top + over, user, smallestSnapshot, s);
        SeenHides(top + over, mid + under, kept + under, user, s);
      }
    } else {
      ResurrectionChangesRead(input, smallestSnapshot, base, under, user);
      UnseenHidesNothing(top + over, mid + under, kept + under, user, smallestSnapshot);
    }
  }

  lemma StillSeen(es: set<Entry>, user: UserKey, snapshot: nat, later: nat)
    requires Seen(es, user, snapshot) && snapshot <= later
    ensures Seen(es, user, later)
  {
  }

  lemma DistinctSubset(es: set<Entry>, part: set<Entry>)
    requires DistinctSequences(es) && part <= es
    ensures DistinctSequences(part)
  {
  }

  /** No file left out of the next level goes on with the user key at which an input file ends. A
      caller can check this from the file ranges alone. */
  ghost predicate NextLevelBoundaryClosed(files: seq<seq<FileMetaData>>, c: Change)
    requires c.level + 1 < |files|
  {
    forall g, p :: g in files[c.level + 1] && g !in c.inputs1 && p in c.inputs1 ==>
      p.Largest().user != g.Smallest().user
  }

  /** Then nothing is resurrected. */
  lemma BoundaryClosedIsSafe(files: seq<seq<FileMetaData>>, c: Change, input: seq<Entry>, smallestSnapshot: nat, user: UserKey)
    requires ValidVersion(files) && c.level + 1 < NUM_LEVELS && Selected(c.level, files, c.inputs0, c.inputs1)
    requires EntrySet(input) == InputEntries(c)
    requires NextLevelBoundaryClosed(files, c)
    ensures !Resurrects(input, smallestSnapshot, BaseAt(files, c.level), Under(files, c), user)
  {
    hide Less, Sorted, Overlaps, NoOlderLeftOut, SortedLevel, NumberedByAge, ShallowerIsNewer;
    var base := BaseAt(files, c.level);
    if Resurrects(input, smallestSnapshot, base, Under(files, c), user) {
      var d, v :| IsNewest(EntrySet(input), user, smallestSnapshot, Some(d)) && d.key.kind.Deletion? && base(user)
        && IsNewest(Under(files, c), user, smallestSnapshot, Some(v)) && v.key.kind.Value?;
      var m, g :| 0 <= m < |files| && g in files[m] && IsUnder(files, c, m, g) && v in g.entries;
      WithinFile(g, v);
      assert m == c.level + 1;
      assert d in InputEntries(c);
      SharedKeyCrossesBoundary(files, c, g, d);
    }
  }

  lemma SharedKeyCrossesBoundary(files: seq<seq<FileMetaData>>, c: Change, g: FileMetaData, d: Entry)
    requires ValidVersion(files) && c.level + 1 < NUM_LEVELS && Selected(c.level, files, c.inputs0, c.inputs1)
    requires IsUnder(files, c, c.level + 1, g) && d in InputEntries(c)
    requires g.Smallest().user <= d.key.user
    ensures !NextLevelBoundaryClosed(files, c)
  {
    hide Less, Sorted, Overlaps, NoOlderLeftOut, SortedLevel, NumberedByAge, ShallowerIsNewer;
    assert SortedLevel(files[c.level + 1]);
    var lo, hi :| SpansUsers(c.inputs0, lo, hi) && c.inputs1 == Overlapping(files[c.level + 1], Some(lo), Some(hi));
    if d in LevelEntries(c.inputs0) {
      var p :| p in c.inputs0 && d in p.entries;
      WithinFile(p, d);
    } else {
      var p :| p in c.inputs1 && d in p.entries;
      WithinFile(p, d);
      LeftOutIsAside(files, c, lo, hi, g, p);
      var first: FileMetaData :| first in c.inputs0 && first.Largest().user == hi;
      LessMeansUser(p.Largest(), g.Smallest());
    }
  }

  lemma LessMeansUser(a: InternalKey, b: InternalKey)
    requires Less(a, b)
    ensures a.user <= b.user
  {
  }
}