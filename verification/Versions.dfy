/** Versions, their sorted levels of table files, and point lookups through them (db/version_set.cc). */
module Versions {
  import opened Keys

  const NUM_LEVELS: nat := 7

  /** A table file with its contents; the source keeps the first and last key beside the number. */
  datatype TableFile = TableFile(number: nat, fileSize: nat, entries: seq<Entry>) {
    ghost predicate Valid() {
      entries != [] && Sorted(entries)
    }

    function Smallest(): InternalKey
      requires entries != []
    {
      entries[0].key
    }

    function Largest(): InternalKey
      requires entries != []
    {
      entries[|entries| - 1].key
    }
  }

  type FileMetaData = f: TableFile | f.Valid()
    witness TableFile(0, 0, [Entry(InternalKey(0.0, 0, Value), [])])

  lemma WithinFile(f: FileMetaData, e: Entry)
    requires e in f.entries
    ensures !Less(e.key, f.Smallest()) && !Less(f.Largest(), e.key)
    ensures f.Smallest().user <= e.key.user <= f.Largest().user
  {
    var i :| 0 <= i < |f.entries| && f.entries[i] == e;
    assert i == 0 || Less(f.entries[0].key, f.entries[i].key);
    assert i == |f.entries| - 1 || Less(f.entries[i].key, f.entries[|f.entries| - 1].key);
  }

  /** The files of a level below 0: in internal-key order and disjoint. */
  ghost predicate SortedLevel(files: seq<FileMetaData>) {
    forall i, j :: 0 <= i < j < |files| ==> Less(files[i].Largest(), files[j].Smallest())
  }

  /** Wherever `a` and `b` hold the same user key, `a` holds the newer data, which comes first in the
      internal-key order. */
  ghost predicate Newer(a: seq<Entry>, b: seq<Entry>) {
    forall x, y :: x in a && y in b && x.key.user == y.key.user ==> Less(x.key, y.key)
  }

  /** Level 0 is ordered by file number: a larger number means newer data. */
  ghost predicate NumberedByAge(files: seq<FileMetaData>) {
    forall f, g :: f in files && g in files && f != g ==>
      f.number != g.number && (f.number > g.number ==> Newer(f.entries, g.entries))
  }

  ghost predicate ShallowerIsNewer(files: seq<seq<FileMetaData>>) {
    forall l, m, f, g ::
      0 <= l < m < |files| && f in files[l] && g in files[m] ==> Newer(f.entries, g.entries)
  }

  ghost predicate ValidVersion(files: seq<seq<FileMetaData>>) {
    && |files| == NUM_LEVELS
    && (forall l :: 1 <= l < NUM_LEVELS ==> SortedLevel(files[l]))
    && NumberedByAge(files[0])
    && ShallowerIsNewer(files)
  }

  ghost function LevelEntries(files: seq<FileMetaData>): set<Entry> {
    set f, e | f in files && e in f.entries :: e
  }

  ghost function VersionEntries(files: seq<seq<FileMetaData>>): set<Entry> {
    set l, e | 0 <= l < |files| && e in LevelEntries(files[l]) :: e
  }

  ghost predicate Visible(e: Entry, user: UserKey, snapshot: nat) {
    e.key.user == user && e.key.sequence <= snapshot
  }

  /** `r` is what a reader of `user` at `snapshot` must see among `es`: the newest entry no newer
      than the snapshot, or nothing when there is none. */
  ghost predicate IsNewest(es: set<Entry>, user: UserKey, snapshot: nat, r: Option<Entry>) {
    match r
    case None => forall e :: e in es ==> !Visible(e, user, snapshot)
    case Some(n) =>
      && n in es && Visible(n, user, snapshot)
      && forall e :: e in es && Visible(e, user, snapshot) ==> e.key.sequence <= n.key.sequence
  }

  /** Binary search for the first file whose largest key is at or after `key`. */
  method FindFile(files: seq<FileMetaData>, key: InternalKey) returns (right: nat)
    requires SortedLevel(files)
    ensures right <= |files|
    ensures forall i :: 0 <= i < right ==> Less(files[i].Largest(), key)
    ensures forall i :: right <= i < |files| ==> !Less(files[i].Largest(), key)
  {
    var left := 0;
    right := |files|;
    while left < right
      invariant 0 <= left <= right <= |files|
      invariant forall i :: 0 <= i < left ==> Less(files[i].Largest(), key)
      invariant forall i :: right <= i < |files| ==> !Less(files[i].Largest(), key)
    {
      var mid := (left + right) / 2;
      forall i | 0 <= i < |files|
        ensures i < mid ==> Less(files[i].Largest(), files[mid].Largest())
        ensures mid < i ==> Less(files[mid].Largest(), files[i].Largest())
      {
        WithinFile(files[mid], files[mid].entries[|files[mid].entries| - 1]);
        WithinFile(files[i], files[i].entries[|files[i].entries| - 1]);
      }
      if Less(files[mid].Largest(), key) {
        left := mid + 1;
      } else {
        right := mid;
      }
    }
  }

  /** The file's user-key range meets [lo, hi]; a missing bound is infinite. */
  predicate Overlaps(f: FileMetaData, lo: Option<UserKey>, hi: Option<UserKey>) {
    && !(lo.Some? && lo.value > f.Largest().user)
    && !(hi.Some? && hi.value < f.Smallest().user)
  }

  /** Does any file meet the range? A sorted level is searched by bisection: only the first file
      not wholly before the range is looked at. */
  method SomeFileOverlapsRange(disjointSorted: bool, files: seq<FileMetaData>,
                               smallest: Option<UserKey>, largest: Option<UserKey>) returns (r: bool)
    requires disjointSorted ==> SortedLevel(files)
    requires forall f :: f in files ==> f.Largest().sequence <= MAX_SEQUENCE
    ensures r <==> exists f :: f in files && Overlaps(f, smallest, largest)
  {
    if !disjointSorted {
      for i := 0 to |files|
        invariant forall j :: 0 <= j < i ==> !Overlaps(files[j], smallest, largest)
      {
        if Overlaps(files[i], smallest, largest) {
          return true;
        }
      }
      return false;
    }
    var index := 0;
    if smallest.Some? {
      index := FindFile(files, InternalKey(smallest.value, MAX_SEQUENCE, Value));
    }
    if index >= |files| {
      return false;
    }
    r := !(largest.Some? && largest.value < files[index].Smallest().user);
    assert smallest.Some? ==> smallest.value <= files[index].Largest().user;
    assert r ==> Overlaps(files[index], smallest, largest);
    if !r {
      forall i | index < i < |files| ensures files[index].Smallest().user <= files[i].Smallest().user {
        WithinFile(files[index], files[index].entries[|files[index].entries| - 1]);
      }
    }
  }

  /** The entry found by seeking to the lookup key, when its user key matches: the newest visible one. */
  function Lookup(es: seq<Entry>, user: UserKey, snapshot: nat): (r: Option<Entry>)
    requires Sorted(es)
    ensures IsNewest((set e | e in es), user, snapshot, r)
  {
    var i := SeekIndex(es, LookupKey(user, snapshot));
    assert forall j :: 0 <= j < |es| ==> es[j] in es;
    assert forall j :: i < j < |es| ==> Less(es[i].key, es[j].key);
    if i < |es| && es[i].key.user == user then Some(es[i]) else None
  }

  function InsertNewestFirst(f: FileMetaData, fs: seq<FileMetaData>): (r: seq<FileMetaData>)
    requires forall i, j :: 0 <= i < j < |fs| ==> fs[i].number >= fs[j].number
    ensures forall i, j :: 0 <= i < j < |r| ==> r[i].number >= r[j].number
    ensures forall g :: g in r <==> g == f || g in fs
  {
    if fs == [] || f.number >= fs[0].number then
      [f] + fs
    else
      var rest := InsertNewestFirst(f, fs[1..]);
      assert forall g :: g in fs <==> g == fs[0] || g in fs[1..];
      assert forall i :: 0 <= i < |rest| ==> rest[i] in rest;
      [fs[0]] + rest
  }

  /** The files by number, largest first. */
  function NewestFirst(fs: seq<FileMetaData>): (r: seq<FileMetaData>)
    ensures forall i, j :: 0 <= i < j < |r| ==> r[i].number >= r[j].number
    ensures forall g :: g in r <==> g in fs
  {
    if fs == [] then [] else
      assert forall g :: g in fs <==> g == fs[0] || g in fs[1..];
      InsertNewestFirst(fs[0], NewestFirst(fs[1..]))
  }

  /** No entry of the file answers the lookup. */
  ghost predicate Misses(f: FileMetaData, user: UserKey, snapshot: nat) {
    forall e :: e in f.entries ==> !Visible(e, user, snapshot)
  }

  /** Files of one level to search, in order: at level 0 all files covering the key from newest to
      oldest, below it the at most one file that can hold the answer. */
  method FilesToSearch(level: nat, files: seq<FileMetaData>, user: UserKey, snapshot: nat)
      returns (r: seq<FileMetaData>)
    requires if level == 0 then NumberedByAge(files) else SortedLevel(files)
    ensures forall f :: f in r ==> f in files
    ensures forall f :: f in files && f !in r ==>
      || Misses(f, user, snapshot)
      || (|r| == 1 && !Misses(r[0], user, snapshot) && Newer(r[0].entries, f.entries))
    ensures forall i, j :: 0 <= i < j < |r| ==> r[i] == r[j] || Newer(r[i].entries, r[j].entries)
  {
    if level == 0 {
      r := FilesCovering(files, user, snapshot);
    } else {
      r := FileThatMayHold(files, user, snapshot);
    }
  }

  method FilesCovering(files: seq<FileMetaData>, user: UserKey, snapshot: nat) returns (r: seq<FileMetaData>)
    requires NumberedByAge(files)
    ensures forall f :: f in r ==> f in files
    ensures forall f :: f in files && f !in r ==> Misses(f, user, snapshot)
    ensures forall i, j :: 0 <= i < j < |r| ==> r[i] == r[j] || Newer(r[i].entries, r[j].entries)
  {
    hide Less, Sorted, Newer;
    r := [];
    for i := 0 to |files|
      invariant forall f :: f in r ==> f in files
      invariant forall j :: 0 <= j < i ==> files[j] in r || Misses(files[j], user, snapshot)
    {
      var f := files[i];
      if f.Smallest().user <= user <= f.Largest().user {
        r := r + [f];
      } else {
        OutsideMisses(f, user, snapshot);
      }
    }
    r := NewestFirst(r);
    forall i, j | 0 <= i < j < |r| ensures r[i] == r[j] || Newer(r[i].entries, r[j].entries) {
      assert r[i] in files && r[j] in files;
    }
  }

  method FileThatMayHold(files: seq<FileMetaData>, user: UserKey, snapshot: nat) returns (r: seq<FileMetaData>)
    requires SortedLevel(files)
    ensures |r| <= 1 && forall f :: f in r ==> f in files
    ensures forall f :: f in files && f !in r ==>
      || Misses(f, user, snapshot)
      || (|r| == 1 && !Misses(r[0], user, snapshot) && Newer(r[0].entries, f.entries))
  {
    hide Less, Sorted, Newer, Misses, SortedLevel;
    r := [];
    var index := FindFile(files, LookupKey(user, snapshot));
    forall i | 0 <= i < index ensures Misses(files[i], user, snapshot) {
      EndsBeforeMisses(files[i], user, snapshot);
    }
    if index < |files| {
      if user < files[index].Smallest().user {
        forall i | index <= i < |files| ensures Misses(files[i], user, snapshot) {
          StartsNoEarlier(files, index, i);
          OutsideMisses(files[i], user, snapshot);
        }
      } else {
        r := [files[index]];
        forall i | index < i < |files|
          ensures Newer(files[index].entries, files[i].entries)
          ensures Misses(files[i], user, snapshot) || !Misses(files[index], user, snapshot)
        {
          EarlierIsNewer(files, index, i);
          LaterNeedsFirst(files, index, i, user, snapshot);
        }
      }
    }
  }

  lemma OutsideMisses(f: FileMetaData, user: UserKey, snapshot: nat)
    requires !(f.Smallest().user <= user <= f.Largest().user)
    ensures Misses(f, user, snapshot)
  {
    forall e | e in f.entries ensures !Visible(e, user, snapshot) {
      WithinFile(f, e);
    }
  }

  lemma EndsBeforeMisses(f: FileMetaData, user: UserKey, snapshot: nat)
    requires Less(f.Largest(), LookupKey(user, snapshot))
    ensures Misses(f, user, snapshot)
  {
    forall e | e in f.entries ensures !Visible(e, user, snapshot) {
      WithinFile(f, e);
    }
  }

  lemma StartsNoEarlier(files: seq<FileMetaData>, i: nat, j: nat)
    requires SortedLevel(files) && i <= j < |files|
    ensures files[i].Smallest().user <= files[j].Smallest().user
    ensures i < j ==> files[i].Largest().user <= files[j].Smallest().user
  {
    WithinFile(files[i], files[i].entries[0]);
    assert i < j ==> Less(files[i].Largest(), files[j].Smallest());
  }

  /** A later file can only answer if the user key already ends the first one, with visible data. */
  lemma LaterNeedsFirst(files: seq<FileMetaData>, i: nat, j: nat, user: UserKey, snapshot: nat)
    requires SortedLevel(files) && i < j < |files|
    requires !Less(files[i].Largest(), LookupKey(user, snapshot)) && files[i].Smallest().user <= user
    ensures Misses(files[j], user, snapshot) || !Misses(files[i], user, snapshot)
  {
    StartsNoEarlier(files, i, j);
    var last := files[i].entries[|files[i].entries| - 1];
    assert last in files[i].entries;
    if files[i].Largest().user == user {
      assert Visible(last, user, snapshot);
    } else {
      forall e | e in files[j].entries ensures !Visible(e, user, snapshot) {
        WithinFile(files[j], e);
      }
    }
  }

  /** In a sorted level a user key that spans two files is newer in the first. */
  lemma EarlierIsNewer(files: seq<FileMetaData>, i: nat, j: nat)
    requires SortedLevel(files) && i < j < |files|
    ensures Newer(files[i].entries, files[j].entries)
  {
    forall x, y | x in files[i].entries && y in files[j].entries && x.key.user == y.key.user
      ensures Less(x.key, y.key)
    {
      WithinFile(files[i], x);
      WithinFile(files[j], y);
    }
  }

  /** Search one level; the answer is the level's newest visible entry. */
  method SearchLevel(level: nat, files: seq<FileMetaData>, user: UserKey, snapshot: nat)
      returns (r: Option<Entry>)
    requires if level == 0 then NumberedByAge(files) else SortedLevel(files)
    ensures IsNewest(LevelEntries(files), user, snapshot, r)
  {
    hide Less, Sorted, Newer, SortedLevel, NumberedByAge;
    var candidates := FilesToSearch(level, files, user, snapshot);
    for i := 0 to |candidates|
      invariant forall j :: 0 <= j < i ==> Misses(candidates[j], user, snapshot)
    {
      r := Lookup(candidates[i].entries, user, snapshot);
      assert candidates[i] in files;
      if r.Some? {
        forall f | f in files ensures HidesAll(r.value, f, user, snapshot) {
          if f in candidates {
            var j :| 0 <= j < |candidates| && candidates[j] == f;
            if j > i {
              HitHidesOlder(candidates[i], f, user, snapshot, r.value);
            }
          } else if !Misses(f, user, snapshot) {
            assert i == 0;
            HitHidesOlder(candidates[0], f, user, snapshot, r.value);
          }
        }
        return;
      }
      assert forall e :: e in candidates[i].entries ==> e in (set x | x in candidates[i].entries);
    }
    r := None;
    forall f | f in files ensures Misses(f, user, snapshot) {
      if f in candidates {
        var j :| 0 <= j < |candidates| && candidates[j] == f;
      }
    }
  }

  /** No entry of the file is visible and newer than `n`. */
  ghost predicate HidesAll(n: Entry, f: FileMetaData, user: UserKey, snapshot: nat) {
    forall e :: e in f.entries && Visible(e, user, snapshot) ==> e.key.sequence <= n.key.sequence
  }

  lemma HitHidesOlder(f: FileMetaData, g: FileMetaData, user: UserKey, snapshot: nat, n: Entry)
    requires IsNewest((set e | e in f.entries), user, snapshot, Some(n))
    requires f == g || Newer(f.entries, g.entries)
    ensures HidesAll(n, g, user, snapshot)
  {
    forall e | e in g.entries && Visible(e, user, snapshot) ensures e.key.sequence <= n.key.sequence {
      assert f == g ==> e in (set x | x in f.entries);
      assert f != g ==> Less(n.key, e.key);
    }
  }

  /** `Version::Get`: level by level, newest data first, stopping at the first entry found. It
      returns the newest entry of the whole version that the snapshot can see. */
  method Get(files: seq<seq<FileMetaData>>, user: UserKey, snapshot: nat) returns (r: Option<Entry>)
    requires ValidVersion(files)
    ensures IsNewest(VersionEntries(files), user, snapshot, r)
  {
    for level := 0 to NUM_LEVELS
      invariant forall l :: 0 <= l < level ==> IsNewest(LevelEntries(files[l]), user, snapshot, None)
    {
      r := SearchLevel(level, files[level], user, snapshot);
      if r.Some? {
        ShallowHitIsNewest(files, level, user, snapshot, r.value);
        return;
      }
    }
    r := None;
  }

  /** When no shallower level answers, a level's newest visible entry is the version's. */
  lemma ShallowHitIsNewest(files: seq<seq<FileMetaData>>, level: nat, user: UserKey, snapshot: nat, n: Entry)
    requires ShallowerIsNewer(files) && level < |files|
    requires forall l :: 0 <= l < level ==> IsNewest(LevelEntries(files[l]), user, snapshot, None)
    requires IsNewest(LevelEntries(files[level]), user, snapshot, Some(n))
    ensures IsNewest(VersionEntries(files), user, snapshot, Some(n))
  {
    var g :| g in files[level] && n in g.entries;
    forall l, e | 0 <= l < |files| && e in LevelEntries(files[l])
      ensures Visible(e, user, snapshot) ==> e.key.sequence <= n.key.sequence
    {
      if l > level {
        var f :| f in files[l] && e in f.entries;
        assert Newer(g.entries, f.entries);
      } else if l < level {
        assert IsNewest(LevelEntries(files[l]), user, snapshot, None);
      }
    }
  }
}
