/** The version-changing steps: flushing a table and installing a compaction (db/db_impl.cc). */
module Steps {
  import opened Keys
  import opened Sequences
  import opened Versions
  import opened Edits
  import opened Inputs
  import opened Compaction
  import opened Store

  /** Insert into a sorted run; an entry that is already there is not repeated. */
  function InsertSorted(es: seq<Entry>, e: Entry): (r: seq<Entry>)
    requires Sorted(es) && forall x :: x in es && x.key == e.key ==> x == e
    ensures Sorted(r) && EntrySet(r) == EntrySet(es) + {e}
  {
    var i := SeekIndex(es, e.key);
    if i < |es| && es[i] == e then es
    else
      InsertKeepsOrder(es, e, i);
      es[..i] + [e] + es[i..]
  }

  lemma InsertKeepsOrder(es: seq<Entry>, e: Entry, i: nat)
    requires Sorted(es) && i <= |es|
    requires forall j :: 0 <= j < i ==> Less(es[j].key, e.key)
    requires i < |es| ==> !Less(es[i].key, e.key) && es[i] != e
    requires forall x :: x in es && x.key == e.key ==> x == e
    ensures Sorted(es[..i] + [e] + es[i..])
    ensures EntrySet(es[..i] + [e] + es[i..]) == EntrySet(es) + {e}
  {
    var r := es[..i] + [e] + es[i..];
    forall j | i <= j < |es| ensures Less(e.key, es[j].key) {
      assert es[i] in es;
      assert i == j || Less(es[i].key, es[j].key);
    }
    assert es == es[..i] + es[i..];
    assert forall x :: x in r <==> x in es || x == e;
  }

  /** File numbers are unique over the whole version, and below the next number to be given out. */
  ghost predicate NumbersUnique(files: seq<seq<FileMetaData>>, next: nat) {
    && (forall l, f :: 0 <= l < |files| && f in files[l] ==> f.number < next)
    && forall l, m, f, g :: 0 <= l < |files| && 0 <= m < |files| && f in files[l] && g in files[m] && f.number == g.number ==>
         l == m && f == g
  }

  ghost predicate LevelsOrdered(files: seq<seq<FileMetaData>>) {
    forall l :: 0 <= l < |files| ==> Ordered(files[l])
  }

  // ----- flushing -----

  ghost predicate InstallsTable(files: seq<seq<FileMetaData>>, level: nat, f: FileMetaData, files1: seq<seq<FileMetaData>>)
    requires level < |files|
  {
    && |files1| == |files|
    && Arranges(files1[level], Files(files[level]) + {f})
    && forall l :: 0 <= l < |files| && l != level ==> files1[l] == files[l]
  }

  /** A table that is newer than the whole version may go to level 0, or deeper where it meets no file. */
  ghost predicate FitsLevel(files: seq<seq<FileMetaData>>, level: nat, f: FileMetaData) {
    level > 0 ==> forall l, g :: 0 <= l <= level && l < |files| && g in files[l] ==>
      !Overlaps(g, Some(f.Smallest().user), Some(f.Largest().user))
  }

  lemma FlushKeepsVersion(files: seq<seq<FileMetaData>>, level: nat, f: FileMetaData, files1: seq<seq<FileMetaData>>)
    requires ValidVersion(files) && level < NUM_LEVELS && InstallsTable(files, level, f, files1)
    requires Below(EntrySet(f.entries), VersionEntries(files)) && FitsLevel(files, level, f)
    requires forall l, g :: 0 <= l < |files| && g in files[l] ==> g.number < f.number
    ensures ValidVersion(files1)
    ensures VersionEntries(files1) == VersionEntries(files) + EntrySet(f.entries)
  {
    hide Less, Sorted, SortedLevel, Overlaps, Newer, Ordered, Apart, Below, FitsLevel, NumberedByAge, VersionEntries;
    FlushKeepsNumbers(files, level, f, files1);
    forall l, m, g, h | 0 <= l < m < |files1| && g in files1[l] && h in files1[m] ensures Newer(g.entries, h.entries) {
      FlushedPair(files, level, f, files1, l, m, g, h);
    }
    if level > 0 {
      FlushedApart(files, level, f, files1);
    }
    FlushedEntries(files, level, f, files1);
  }

  lemma FlushKeepsNumbers(files: seq<seq<FileMetaData>>, level: nat, f: FileMetaData, files1: seq<seq<FileMetaData>>)
    requires |files| > 0 && NumberedByAge(files[0]) && level < |files| && InstallsTable(files, level, f, files1)
    requires Below(EntrySet(f.entries), VersionEntries(files))
    requires forall l, g :: 0 <= l < |files| && g in files[l] ==> g.number < f.number
    ensures NumberedByAge(files1[0])
  {
    hide Less, Sorted, Newer, Ordered, Below;
    assert forall g :: g in files1[level] ==> g in Files(files1[level]);
    forall g | g in files[0] ensures Newer(f.entries, g.entries) {
      FlushedIsNewer(files, f, 0, g);
    }
  }

  lemma FlushedPair(files: seq<seq<FileMetaData>>, level: nat, f: FileMetaData, files1: seq<seq<FileMetaData>>,
                    l: nat, m: nat, g: FileMetaData, h: FileMetaData)
    requires ShallowerIsNewer(files) && level < |files| && InstallsTable(files, level, f, files1)
    requires Below(EntrySet(f.entries), VersionEntries(files)) && FitsLevel(files, level, f)
    requires l < m < |files1| && g in files1[l] && h in files1[m]
    ensures Newer(g.entries, h.entries)
  {
    hide Less, Sorted, Newer, Ordered, Below, Overlaps;
    assert g in Files(files1[l]) && h in Files(files1[m]);
    if h in files[m] {
      if g !in files[l] {
        FlushedIsNewer(files, f, m, h);
      }
    } else {
      FlushedShares(f, g);
    }
  }

  lemma FlushedIsNewer(files: seq<seq<FileMetaData>>, f: FileMetaData, l: nat, g: FileMetaData)
    requires Below(EntrySet(f.entries), VersionEntries(files)) && l < |files| && g in files[l]
    ensures Newer(f.entries, g.entries)
  {
    hide Less;
    forall y | y in g.entries ensures y in VersionEntries(files) {
      assert y in LevelEntries(files[l]);
    }
  }

  lemma FlushedShares(f: FileMetaData, g: FileMetaData)
    requires !Overlaps(g, Some(f.Smallest().user), Some(f.Largest().user))
    ensures Newer(g.entries, f.entries)
    ensures Less(f.Largest(), g.Smallest()) || Less(g.Largest(), f.Smallest())
  {
    DisjointShareNothing(g, f);
  }

  lemma FlushedApart(files: seq<seq<FileMetaData>>, level: nat, f: FileMetaData, files1: seq<seq<FileMetaData>>)
    requires 0 < level < |files| && SortedLevel(files[level]) && InstallsTable(files, level, f, files1)
    requires FitsLevel(files, level, f)
    ensures SortedLevel(files1[level])
  {
    hide Less, Sorted, SortedLevel, Overlaps;
    SortedIsApart(files[level]);
    forall g | g in files[level] ensures Less(f.Largest(), g.Smallest()) || Less(g.Largest(), f.Smallest()) {
      FlushedShares(f, g);
    }
    ApartIsSorted(files1[level]);
  }

  lemma FlushedEntries(files: seq<seq<FileMetaData>>, level: nat, f: FileMetaData, files1: seq<seq<FileMetaData>>)
    requires level < |files| && InstallsTable(files, level, f, files1)
    ensures VersionEntries(files1) == VersionEntries(files) + EntrySet(f.entries)
  {
    hide Less, Sorted, Ordered;
    assert LevelEntries(files1[level]) == LevelEntries(files[level]) + EntrySet(f.entries) by {
      assert forall g :: g in files1[level] <==> g in Files(files1[level]);
    }
    assert forall l :: 0 <= l < |files| && l != level ==> LevelEntries(files1[l]) == LevelEntries(files[l]);
  }

  // ----- compaction outputs -----

  /** Give the output tables their file numbers and sizes. */
  function NumberTables(tables: seq<seq<Entry>>, next: nat, sizes: nat -> nat): (r: seq<FileMetaData>)
    requires forall i :: 0 <= i < |tables| ==> tables[i] != [] && Sorted(tables[i])
    ensures |r| == |tables|
    ensures forall i :: 0 <= i < |tables| ==> r[i].entries == tables[i] && r[i].number == next + i
  {
    if tables == [] then []
    else
      var n := |tables| - 1;
      var last: FileMetaData := TableFile(next + n, sizes(n), tables[n]);
      NumberTables(tables[..n], next, sizes) + [last]
  }

  lemma {:induction false} KeptIsSorted(input: seq<Entry>, n: nat, smallestSnapshot: nat, base: UserKey -> bool)
    requires Sorted(input) && n <= |input|
    ensures Sorted(Kept(input, n, smallestSnapshot, base))
  {
    if n > 0 {
      KeptIsSorted(input, n - 1, smallestSnapshot, base);
      forall e | e in Kept(input, n - 1, smallestSnapshot, base) ensures Less(e.key, input[n - 1].key) {
        var i :| 0 <= i < n - 1 && e == input[i];
      }
    }
  }

  /** Tables cut from a sorted run are sorted, and each ends before the later ones start. */
  lemma {:induction false} CutsAreApart(tables: seq<seq<Entry>>)
    requires Sorted(Concat(tables))
    ensures forall t :: t in tables ==> Sorted(t)
    ensures forall i, j, x, y :: 0 <= i < j < |tables| && x in tables[i] && y in tables[j] ==> Less(x.key, y.key)
    ensures EntrySet(Concat(tables)) == set t, e | t in tables && e in t :: e
  {
    if tables != [] {
      var n := |tables| - 1;
      var front, last := Concat(tables[..n]), tables[n];
      PrefixOfSorted(front, last);
      CutsAreApart(tables[..n]);
      forall i, x, y | 0 <= i < n && x in tables[i] && y in tables[n] ensures Less(x.key, y.key) {
        assert tables[..n][i] == tables[i] && x in EntrySet(front);
      }
      assert forall t :: t in tables <==> t in tables[..n] || t == last;
      assert forall i :: 0 <= i < n ==> tables[..n][i] == tables[i];
      var all := set t, e | t in tables && e in t :: e;
      assert EntrySet(front) == set t, e | t in tables[..n] && e in t :: e;
      assert EntrySet(front + last) == EntrySet(front) + EntrySet(last);
      forall e | e in EntrySet(front) + EntrySet(last) ensures e in all {
        if e in last {
          assert tables[n] in tables;
        }
      }
    }
  }

  lemma PrefixOfSorted(a: seq<Entry>, b: seq<Entry>)
    requires Sorted(a + b)
    ensures Sorted(a) && Sorted(b)
    ensures forall x, y :: x in a && y in b ==> Less(x.key, y.key)
  {
    var s := a + b;
    assert forall i :: 0 <= i < |b| ==> s[|a| + i] == b[i];
    assert forall i :: 0 <= i < |a| ==> s[i] == a[i];
    forall i, j | 0 <= i < j < |b| ensures Less(b[i].key, b[j].key) {
      assert Less(s[|a| + i].key, s[|a| + j].key);
    }
    forall x, y | x in a && y in b ensures Less(x.key, y.key) {
      var i :| 0 <= i < |a| && a[i] == x;
      var j :| 0 <= j < |b| && b[j] == y;
      assert Less(s[i].key, s[|a| + j].key);
    }
  }

  lemma OutputsAreGood(tables: seq<seq<Entry>>, outputs: seq<FileMetaData>)
    requires Sorted(Concat(tables)) && |outputs| == |tables|
    requires forall i :: 0 <= i < |tables| ==> outputs[i].entries == tables[i]
    ensures Apart(Files(outputs)) && LevelEntries(outputs) == EntrySet(Concat(tables))
  {
    hide Less, Sorted, Concat, Apart, EntrySet, LevelEntries;
    CutsAreApart(tables);
    OutputsApart(tables, outputs);
    OutputEntries(tables, outputs);
  }

  lemma OutputsApart(tables: seq<seq<Entry>>, outputs: seq<FileMetaData>)
    requires |outputs| == |tables| && forall i :: 0 <= i < |tables| ==> outputs[i].entries == tables[i]
    requires forall i, j, x, y :: 0 <= i < j < |tables| && x in tables[i] && y in tables[j] ==> Less(x.key, y.key)
    ensures Apart(Files(outputs))
  {
    hide Less, Sorted, FileMetaData.Smallest, FileMetaData.Largest;
    forall i, j | 0 <= i < j < |outputs| ensures Less(outputs[i].Largest(), outputs[j].Smallest()) {
      EndsOfFile(outputs[i]);
      EndsOfFile(outputs[j]);
    }
    forall f, g | f in Files(outputs) && g in Files(outputs) && f != g
      ensures Less(f.Largest(), g.Smallest()) || Less(g.Largest(), f.Smallest())
    {
      var i :| 0 <= i < |outputs| && outputs[i] == f;
      var j :| 0 <= j < |outputs| && outputs[j] == g;
    }
  }

  lemma EndsOfFile(f: FileMetaData)
    ensures exists e :: e in f.entries && e.key == f.Smallest()
    ensures exists e :: e in f.entries && e.key == f.Largest()
  {
    hide Sorted;
    assert f.entries[0] in f.entries && f.entries[|f.entries| - 1] in f.entries;
  }

  lemma OutputEntries(tables: seq<seq<Entry>>, outputs: seq<FileMetaData>)
    requires |outputs| == |tables| && forall i :: 0 <= i < |tables| ==> outputs[i].entries == tables[i]
    ensures LevelEntries(outputs) == set t, e | t in tables && e in t :: e
  {
    hide Sorted;
    var all := set t, e | t in tables && e in t :: e;
    forall e | e in all ensures e in LevelEntries(outputs) {
      var t :| t in tables && e in t;
      var i :| 0 <= i < |tables| && tables[i] == t;
      assert outputs[i] in outputs;
    }
    forall e | e in LevelEntries(outputs) ensures e in all {
      var f :| f in outputs && e in f.entries;
      var i :| 0 <= i < |outputs| && outputs[i] == f;
      assert tables[i] in tables;
    }
  }

  // ----- installing edits -----

  ghost predicate SameKeySameEntry(es: set<Entry>) {
    forall x, y :: x in es && y in es && x.key == y.key ==> x == y
  }

  /** All entries of the input files in order: what the merging iterator delivers. */
  method MakeInputIterator(inputs: seq<FileMetaData>) returns (input: seq<Entry>)
    requires SameKeySameEntry(LevelEntries(inputs))
    ensures Sorted(input) && EntrySet(input) == LevelEntries(inputs)
  {
    hide Less, Sorted;
    input := [];
    SortedEmpty();
    for i := 0 to |inputs|
      invariant Sorted(input) && EntrySet(input) == LevelEntries(inputs[..i])
    {
      var es := inputs[i].entries;
      PrefixAppend(inputs, i);
      ghost var before := EntrySet(input);
      assert inputs[i] in inputs && forall f :: f in inputs[..i] ==> f in inputs;
      assert before <= LevelEntries(inputs) && EntrySet(es) <= LevelEntries(inputs);
      for j := 0 to |es|
        invariant Sorted(input) && EntrySet(input) == before + EntrySet(es[..j])
      {
        PrefixAppend(es, j);
        forall x | x in input && x.key == es[j].key ensures x == es[j] {
          assert x in EntrySet(input) && x in LevelEntries(inputs);
          assert es[j] in EntrySet(es);
        }
        input := InsertSorted(input, es[j]);
      }
      WholePrefix(es);
      assert LevelEntries(inputs[..i + 1]) == LevelEntries(inputs[..i]) + EntrySet(es);
    }
    WholePrefix(inputs);
  }

  lemma SortedEmpty()
    ensures Sorted([])
  {
  }

  /** Deleting the inputs by number deletes exactly them. */
  lemma DeletesByNumber(files: seq<seq<FileMetaData>>, next: nat, l: nat, inputs: seq<FileMetaData>, added: seq<FileMetaData>)
    requires NumbersUnique(files, next) && l < |files|
    requires forall f :: f in inputs ==> f in files[l]
    ensures Edited(Files(files[l]), LevelEdit(Numbers(inputs), added)) == Files(files[l]) - Files(inputs) + Files(added)
  {
    forall f | f in files[l] ensures f.number in Numbers(inputs) <==> f in inputs {
      assert forall i :: 0 <= i < |inputs| ==> inputs[i] in inputs;
      if f in inputs {
        var i :| 0 <= i < |inputs| && inputs[i] == f;
        assert Numbers(inputs)[i] == f.number;
      }
    }
  }

  /** The numbers of `added` are unique and unused in the level. */
  ghost predicate UnusedNumbers(level: seq<FileMetaData>, added: seq<FileMetaData>) {
    && (forall i, j :: 0 <= i < j < |added| ==> added[i].number != added[j].number)
    && forall f, g :: f in level && g in added ==> f.number != g.number
  }

  /** A compaction never adds an entry to the version. */
  lemma CompactionShrinks(files: seq<seq<FileMetaData>>, c: Change, files1: seq<seq<FileMetaData>>)
    requires |files| == NUM_LEVELS && c.level + 1 < NUM_LEVELS && Selected(c.level, files, c.inputs0, c.inputs1)
    requires Installs(files, c, files1) && GoodOutputs(c)
    ensures VersionEntries(files1) <= VersionEntries(files)
    ensures c.outputs == c.inputs0 && c.inputs1 == [] ==> VersionEntries(files1) == VersionEntries(files)
  {
    hide Less, Sorted, Selected, Installs, VersionEntries, Apart, Over, Under;
    EntriesSplit(files, c, files1);
  }

  lemma UnusedAreOnce(level: seq<FileMetaData>, e: LevelEdit)
    requires UnusedNumbers(level, e.added)
    ensures NoDoubleAdds(level, [e])
  {
    hide Less, Sorted, AllAdded, Numbers;
    AddedOne(e);
    assert forall i :: 0 <= i < |e.added| ==> e.added[i] in e.added;
    forall f | f in level ensures f.number !in Numbers(e.added) {
      NumberOf(e.added, f.number);
    }
  }

  /** File numbers stay unique when each new file has a number of its own: a new one, or that of an
      input which moves down. */
  ghost predicate OwnNumbers(files: seq<seq<FileMetaData>>, c: Change, next: nat, next1: nat) {
    && next <= next1
    && (forall i, j :: 0 <= i < j < |c.outputs| ==> c.outputs[i].number != c.outputs[j].number)
    && forall f :: f in c.outputs ==> next <= f.number < next1 || (c.inputs0 == [f] && c.outputs == [f])
  }

  lemma NumbersStayUnique(files: seq<seq<FileMetaData>>, c: Change, files1: seq<seq<FileMetaData>>, next: nat, next1: nat)
    requires NumbersUnique(files, next) && c.level + 1 < |files| && Installs(files, c, files1)
    requires forall f :: f in c.inputs0 ==> f in files[c.level]
    requires OwnNumbers(files, c, next, next1)
    ensures NumbersUnique(files1, next1)
  {
    hide Less, Sorted, Ordered, NumbersUnique, OwnNumbers;
    forall l, f | 0 <= l < |files1| && f in files1[l] ensures f.number < next1 {
      NewFileNumber(files, c, files1, next, next1, l, f);
    }
    forall l, m, f, g | 0 <= l < |files1| && 0 <= m < |files1| && f in files1[l] && g in files1[m] && f.number == g.number
      ensures l == m && f == g
    {
      NewFileNumber(files, c, files1, next, next1, l, f);
      NewFileNumber(files, c, files1, next, next1, m, g);
      SameNumber(files, c, next, next1, l, m, f, g);
    }
    UniqueFromParts(files1, next1);
  }

  lemma UniqueFromParts(files: seq<seq<FileMetaData>>, next: nat)
    requires forall l, f :: 0 <= l < |files| && f in files[l] ==> f.number < next
    requires forall l, m, f, g :: 0 <= l < |files| && 0 <= m < |files| && f in files[l] && g in files[m] && f.number == g.number ==>
               l == m && f == g
    ensures NumbersUnique(files, next)
  {
  }

  /** A file of the new version is an old one that was not an input, or an output. */
  ghost predicate Stayed(files: seq<seq<FileMetaData>>, c: Change, l: nat, f: FileMetaData)
    requires l < |files|
  {
    f in files[l] && (l == c.level ==> f !in c.inputs0)
  }

  lemma NewFileNumber(files: seq<seq<FileMetaData>>, c: Change, files1: seq<seq<FileMetaData>>, next: nat, next1: nat,
                      l: nat, f: FileMetaData)
    requires NumbersUnique(files, next) && c.level + 1 < |files| && Installs(files, c, files1)
    requires forall g :: g in c.inputs0 ==> g in files[c.level]
    requires OwnNumbers(files, c, next, next1) && l < |files1| && f in files1[l]
    ensures Stayed(files, c, l, f) || (l == c.level + 1 && f in c.outputs)
    ensures f.number < next1
  {
    hide Less, Sorted, Ordered;
    assert f in Files(files1[l]);
    if f in c.outputs && c.inputs0 == [f] {
      assert f in c.inputs0;
    }
  }

  lemma SameNumber(files: seq<seq<FileMetaData>>, c: Change, next: nat, next1: nat, l: nat, m: nat, f: FileMetaData, g: FileMetaData)
    requires NumbersUnique(files, next) && c.level + 1 < |files| && l < |files| && m < |files|
    requires forall p :: p in c.inputs0 ==> p in files[c.level]
    requires OwnNumbers(files, c, next, next1) && f.number == g.number
    requires Stayed(files, c, l, f) || (l == c.level + 1 && f in c.outputs)
    requires Stayed(files, c, m, g) || (m == c.level + 1 && g in c.outputs)
    ensures l == m && f == g
  {
    hide Less, Sorted;
    assert c.inputs0 == [f] ==> f in c.inputs0;
    assert c.inputs0 == [g] ==> g in c.inputs0;
  }
}
