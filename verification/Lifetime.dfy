/** Who keeps versions and table files alive (db/version_set.cc, db/db_impl.cc): reference counts on
    versions and on file records, the list of versions, and the removal of obsolete tables. */
module Lifetime {
  import opened Keys
  import opened Rings

  /** What lists file records: a version, or the builder that is at work. */
  datatype Holder = OfVersion(v: nat) | OfBuilder

  /** The record of a table file. Records are numbered apart from the files. */
  datatype FileRecord = FileRecord(number: nat, refs: nat)

  const DUMMY: nat := 0

  ghost function HoldersOf(lists: map<Holder, seq<nat>>, f: nat): set<Holder> {
    set h | h in lists && f in lists[h]
  }

  /** Every record counts exactly the versions and builders that list it, and none is there that nobody lists. */
  ghost predicate FilesOk(files: map<nat, FileRecord>, lists: map<Holder, seq<nat>>) {
    && (forall f :: f in files ==> files[f].refs == |HoldersOf(lists, f)| >= 1)
    && (forall h :: h in lists ==> NoDups(lists[h]) && forall f :: f in lists[h] ==> f in files)
  }

  /** One reference to every record of the list given up; a record without references is freed. */
  function Dropped(files: map<nat, FileRecord>, list: seq<nat>): map<nat, FileRecord> {
    if list == [] then files else DropOne(Dropped(files, list[..|list| - 1]), list[|list| - 1])
  }

  function DropOne(files: map<nat, FileRecord>, f: nat): map<nat, FileRecord> {
    if f !in files || files[f].refs <= 1 then files - {f} else files[f := files[f].(refs := files[f].refs - 1)]
  }

  function Held(files: map<nat, FileRecord>, list: seq<nat>): map<nat, FileRecord> {
    if list == [] then files else HoldOne(Held(files, list[..|list| - 1]), list[|list| - 1])
  }

  function HoldOne(files: map<nat, FileRecord>, f: nat): map<nat, FileRecord> {
    if f !in files then files else files[f := files[f].(refs := files[f].refs + 1)]
  }

  lemma {:induction false} DroppedIs(files: map<nat, FileRecord>, list: seq<nat>, f: nat)
    requires NoDups(list)
    ensures f !in list ==> (f in Dropped(files, list) <==> f in files) && (f in files ==> Dropped(files, list)[f] == files[f])
    ensures f in list && f in files && files[f].refs >= 2 ==>
              f in Dropped(files, list) && Dropped(files, list)[f] == files[f].(refs := files[f].refs - 1)
    ensures f in list && (f in files ==> files[f].refs <= 1) ==> f !in Dropped(files, list)
  {
    if list != [] {
      var shorter := list[..|list| - 1];
      DroppedIs(files, shorter, f);
      assert f in list <==> f in shorter || f == list[|list| - 1];
    }
  }

  lemma {:induction false} HeldIs(files: map<nat, FileRecord>, list: seq<nat>, f: nat)
    requires NoDups(list)
    ensures f in Held(files, list) <==> f in files
    ensures f in files ==>
              Held(files, list)[f] == if f in list then files[f].(refs := files[f].refs + 1) else files[f]
  {
    if list != [] {
      var shorter := list[..|list| - 1];
      HeldIs(files, shorter, f);
      assert f in list <==> f in shorter || f == list[|list| - 1];
    }
  }

  ghost predicate HeldByOther(lists: map<Holder, seq<nat>>, h: Holder, f: nat) {
    exists g :: g in lists && g != h && f in lists[g]
  }

  lemma OtherHolders(lists: map<Holder, seq<nat>>, h: Holder, f: nat)
    requires h in lists
    ensures HoldersOf(lists - {h}, f) == HoldersOf(lists, f) - {h}
    ensures h in HoldersOf(lists, f) <==> f in lists[h]
    ensures |HoldersOf(lists - {h}, f)| == |HoldersOf(lists, f)| - (if f in lists[h] then 1 else 0)
    ensures HeldByOther(lists, h, f) <==> |HoldersOf(lists - {h}, f)| >= 1
  {
    var others := HoldersOf(lists - {h}, f);
    assert others == HoldersOf(lists, f) - {h};
    if others != {} {
      var g :| g in others;
      assert g in lists && g != h && f in lists[g];
      assert |others| >= 1;
    } else {
      assert forall g :: g in lists && g != h && f in lists[g] ==> g in others;
    }
  }

  /** Without one holder, exactly the records that nobody else lists are freed. */
  lemma DropKeepsFiles(files: map<nat, FileRecord>, lists: map<Holder, seq<nat>>, h: Holder)
    requires FilesOk(files, lists) && h in lists
    ensures FilesOk(Dropped(files, lists[h]), lists - {h})
    ensures forall f :: f in Dropped(files, lists[h]) <==> f in files && HeldByOther(lists, h, f)
  {
    hide Dropped, NoDups, HoldersOf, HeldByOther;
    var files1, lists1 := Dropped(files, lists[h]), lists - {h};
    forall f
      ensures f in files1 <==> f in files && HeldByOther(lists, h, f)
      ensures f in files1 ==> f in files && files1[f].refs == |HoldersOf(lists1, f)| >= 1
    {
      DroppedIs(files, lists[h], f);
      OtherHolders(lists, h, f);
    }
    forall g, f | g in lists1 && f in lists1[g] ensures f in files1 {
      HeldIn(lists, h, g, f);
    }
  }

  lemma HeldIn(lists: map<Holder, seq<nat>>, h: Holder, g: Holder, f: nat)
    requires g in lists && g != h && f in lists[g]
    ensures HeldByOther(lists, h, f)
  {
  }

  ghost predicate HaveRecords(files: map<nat, FileRecord>, list: seq<nat>) {
    forall f :: f in list ==> f in files
  }

  /** A new holder of records that somebody else lists. */
  lemma HoldKeepsFiles(files: map<nat, FileRecord>, lists: map<Holder, seq<nat>>, h: Holder, list: seq<nat>)
    requires FilesOk(files, lists) && h !in lists && NoDups(list) && HaveRecords(files, list)
    ensures FilesOk(Held(files, list), lists[h := list])
  {
    hide Held, NoDups, HoldersOf;
    var files1, lists1 := Held(files, list), lists[h := list];
    forall f
      ensures f in files1 <==> f in files
      ensures f in files ==> files1[f].refs == |HoldersOf(lists1, f)| >= 1
    {
      HeldIs(files, list, f);
      OneMoreHolder(lists, h, list, f);
    }
  }

  lemma OneMoreHolder(lists: map<Holder, seq<nat>>, h: Holder, list: seq<nat>, f: nat)
    requires h !in lists
    ensures |HoldersOf(lists[h := list], f)| == |HoldersOf(lists, f)| + if f in list then 1 else 0
  {
    if f in list {
      assert HoldersOf(lists[h := list], f) == HoldersOf(lists, f) + {h};
    } else {
      assert HoldersOf(lists[h := list], f) == HoldersOf(lists, f);
    }
  }

  /** A record made for the builder. */
  lemma AddKeepsFiles(files: map<nat, FileRecord>, lists: map<Holder, seq<nat>>, f: nat, number: nat)
    requires FilesOk(files, lists) && OfBuilder in lists && f !in files
    ensures FilesOk(files[f := FileRecord(number, 1)], lists[OfBuilder := lists[OfBuilder] + [f]])
  {
    var files1, lists1 := files[f := FileRecord(number, 1)], lists[OfBuilder := lists[OfBuilder] + [f]];
    assert f !in lists[OfBuilder];
    NoDupsGrow(lists[OfBuilder], f);
    forall g | g in files1 ensures files1[g].refs == |HoldersOf(lists1, g)| >= 1 {
      if g == f {
        assert HoldersOf(lists1, f) == {OfBuilder} by {
          assert forall h :: h in lists ==> f !in lists[h];
          assert f in lists1[OfBuilder];
        }
      } else {
        assert HoldersOf(lists1, g) == HoldersOf(lists, g);
      }
    }
  }

  /** How many references a version has: clients', the version set's on its current one, the builder's on
      its base. */
  ghost function Count(clients: multiset<nat>, current: Option<nat>, base: Option<nat>, v: nat): nat {
    clients[v] + (if current == Some(v) then 1 else 0) + (if base == Some(v) then 1 else 0)
  }

  ghost predicate RefsOk(refs: map<nat, nat>, clients: multiset<nat>, current: Option<nat>, base: Option<nat>) {
    forall v :: (if v in refs then refs[v] else 0) == Count(clients, current, base, v)
  }

  /** The versions with references are exactly those on the list; one more may be under construction. */
  ghost predicate VersionsOk(refs: map<nat, nat>, lists: map<Holder, seq<nat>>, ring: seq<nat>, making: Option<nat>) {
    && NoDups(ring) && DUMMY !in ring
    && (forall v :: v in refs <==> OfVersion(v) in lists)
    && (forall v :: v in ring <==> v in refs && refs[v] > 0)
    && (forall v :: v in refs && refs[v] == 0 ==> making == Some(v))
    && (making.Some? ==> making.value in refs && refs[making.value] == 0 && making.value != DUMMY)
  }

  /** One reference to `v` less, and no other change. */
  ghost predicate OneLess(v: nat, clients: multiset<nat>, current: Option<nat>, base: Option<nat>,
                          clients1: multiset<nat>, current1: Option<nat>, base1: Option<nat>) {
    forall w :: Count(clients, current, base, w) == Count(clients1, current1, base1, w) + if w == v then 1 else 0
  }

  lemma HasReference(refs: map<nat, nat>, clients: multiset<nat>, current: Option<nat>, base: Option<nat>,
                     lists: map<Holder, seq<nat>>, ring: seq<nat>, making: Option<nat>, v: nat)
    requires RefsOk(refs, clients, current, base) && VersionsOk(refs, lists, ring, making)
    requires Count(clients, current, base, v) > 0
    ensures v in refs && refs[v] == Count(clients, current, base, v) && v in ring && OfVersion(v) in lists && v != DUMMY
    ensures making != Some(v)
  {
    hide NoDups;
  }

  /** The versions on the list are those that a client holds, the current one, and the one a builder works from. */
  lemma InUseIsListed(refs: map<nat, nat>, clients: multiset<nat>, current: Option<nat>, base: Option<nat>,
                      lists: map<Holder, seq<nat>>, ring: seq<nat>, making: Option<nat>, v: nat)
    requires RefsOk(refs, clients, current, base) && VersionsOk(refs, lists, ring, making)
    ensures v in ring <==> v in clients || current == Some(v) || base == Some(v)
  {
    hide NoDups;
    if v in clients || current == Some(v) || base == Some(v) {
      HasReference(refs, clients, current, base, lists, ring, making, v);
    }
  }

  lemma KeptAlive(refs: map<nat, nat>, clients: multiset<nat>, current: Option<nat>, base: Option<nat>,
                  lists: map<Holder, seq<nat>>, ring: seq<nat>, making: Option<nat>, v: nat,
                  clients1: multiset<nat>, current1: Option<nat>, base1: Option<nat>)
    requires RefsOk(refs, clients, current, base) && VersionsOk(refs, lists, ring, making)
    requires OneLess(v, clients, current, base, clients1, current1, base1) && v in refs && refs[v] >= 2
    ensures RefsOk(refs[v := refs[v] - 1], clients1, current1, base1)
    ensures VersionsOk(refs[v := refs[v] - 1], lists, ring, making)
  {
    hide NoDups;
  }

  lemma LetGo(refs: map<nat, nat>, clients: multiset<nat>, current: Option<nat>, base: Option<nat>,
              lists: map<Holder, seq<nat>>, ring: seq<nat>, making: Option<nat>, v: nat,
              clients1: multiset<nat>, current1: Option<nat>, base1: Option<nat>)
    requires RefsOk(refs, clients, current, base) && VersionsOk(refs, lists, ring, making)
    requires OneLess(v, clients, current, base, clients1, current1, base1) && v in refs && refs[v] == 1
    ensures RefsOk(refs - {v}, clients1, current1, base1)
    ensures VersionsOk(refs - {v}, lists - {OfVersion(v)}, Without(ring, v), making)
  {
    hide NoDups, Without;
    WithoutHas(ring, v);
  }

  /** One reference to `v` given up: nothing happens while there are others; with the last one the version
      leaves the list, and its files lose a reference each. */
  ghost predicate Given(v: nat, refs: map<nat, nat>, ring: seq<nat>, lists: map<Holder, seq<nat>>, files: map<nat, FileRecord>,
                        ring1: seq<nat>, lists1: map<Holder, seq<nat>>, files1: map<nat, FileRecord>) {
    if v in refs && refs[v] > 1 then ring1 == ring && lists1 == lists && files1 == files
    else
      && OfVersion(v) in lists
      && ring1 == Without(ring, v) && lists1 == lists - {OfVersion(v)} && files1 == Dropped(files, lists[OfVersion(v)])
  }

  lemma GivenOnlyVersions(v: nat, refs: map<nat, nat>, ring: seq<nat>, lists: map<Holder, seq<nat>>, files: map<nat, FileRecord>,
                          ring1: seq<nat>, lists1: map<Holder, seq<nat>>, files1: map<nat, FileRecord>)
    requires Given(v, refs, ring, lists, files, ring1, lists1, files1)
    ensures OfBuilder in lists1 <==> OfBuilder in lists
  {
    hide Dropped, Without;
  }

  /** A file record exists exactly as long as some version, or the builder, lists it. */
  lemma RecordsAreListed(files: map<nat, FileRecord>, lists: map<Holder, seq<nat>>, f: nat)
    requires FilesOk(files, lists)
    ensures f in files <==> exists h :: h in lists && f in lists[h]
  {
    if f in files {
      assert HoldersOf(lists, f) != {};
      var h :| h in HoldersOf(lists, f);
    }
  }

  /** The numbers of the files that some version on the list lists. */
  ghost predicate Live(files: map<nat, FileRecord>, lists: map<Holder, seq<nat>>, vs: seq<nat>, number: nat) {
    exists v, f :: v in vs && OfVersion(v) in lists && f in lists[OfVersion(v)] && f in files && files[f].number == number
  }

  /** A file in the database directory; kinds that are never removed are not told apart. */
  datatype DiskFile = LogFile(number: nat) | DescriptorFile(number: nat) | TableFile(number: nat) | TempFile(number: nat)
                    | OtherFile(name: seq<char>)

  predicate Keeps(d: DiskFile, live: set<nat>, logNumber: nat, prevLogNumber: nat, manifestNumber: nat) {
    match d
    case LogFile(n) => n >= logNumber || n == prevLogNumber
    case DescriptorFile(n) => n >= manifestNumber
    case TableFile(n) => n in live
    case TempFile(n) => n in live
    case OtherFile(_) => true
  }

  class VersionSet {
    var files: map<nat, FileRecord>
    /** The files of every version, and those the builder has added. */
    var lists: map<Holder, seq<nat>>
    var refs: map<nat, nat>
    var next: map<nat, nat>
    var prev: map<nat, nat>
    var current: nat
    /** The base of the open builder, and the version that is being made. */
    var base: Option<nat>
    var making: Option<nat>
    var pendingOutputs: set<nat>
    var nextRecord: nat
    var nextVersion: nat
    ghost var ring: seq<nat>
    ghost var clients: multiset<nat>

    /** Everything but the counts of references on versions. */
    ghost predicate Linked()
      reads this`files, this`lists, this`refs, this`next, this`prev, this`making, this`ring, this`nextRecord, this`nextVersion
    {
      && FilesOk(files, lists) && Ring(next, prev, DUMMY, ring)
      && (making.Some? ==> Alone(next, prev, making.value))
      && AllBelow(files, nextRecord) && AllBelow(refs, nextVersion) && nextVersion >= 1
    }

    ghost predicate Valid()
      reads this
    {
      && Linked() && RefsOk(refs, clients, Some(current), base) && VersionsOk(refs, lists, ring, making)
      && (base.Some? <==> OfBuilder in lists)
    }

    /** The first version, without files. */
    constructor ()
      ensures Valid() && files == map[] && base.None? && making.None? && clients == multiset{}
    {
      files, lists, refs := map[], map[OfVersion(1) := []], map[1 := 1];
      next, prev := map[DUMMY := 1, 1 := DUMMY], map[DUMMY := 1, 1 := DUMMY];
      current, base, making, pendingOutputs := 1, None, None, {};
      nextRecord, nextVersion := 0, 2;
      ring, clients := [1], multiset{};
    }

    method Ref(v: nat)
      requires Valid() && v in ring
      modifies this`refs, this`clients
      ensures Valid() && clients == old(clients) + multiset{v}
    {
      hide FilesOk, Ring, NoDups, RefsOk, VersionsOk;
      OneMoreReference(refs, clients, Some(current), base, lists, ring, making, v, clients + multiset{v}, base);
      BelowSame(refs, nextVersion, v, refs[v] + 1);
      refs := refs[v := refs[v] + 1];
      clients := clients + multiset{v};
    }

    /** A version nobody needs is taken off the list and gives its files back. */
    method DeleteVersion(v: nat)
      requires FilesOk(files, lists) && OfVersion(v) in lists && v != DUMMY
      requires NoDups(ring) && DUMMY !in ring && Ring(next, prev, DUMMY, ring)
      requires v !in ring ==> Alone(next, prev, v)
      modifies this`files, this`lists, this`refs, this`next, this`prev, this`ring
      ensures FilesOk(files, lists) && files == Dropped(old(files), old(lists)[OfVersion(v)])
      ensures lists == old(lists) - {OfVersion(v)} && refs == old(refs) - {v}
      ensures NoDups(ring) && DUMMY !in ring && Ring(next, prev, DUMMY, ring)
      ensures ring == Without(old(ring), v)
      ensures forall w :: w !in old(ring) && w != DUMMY && Alone(old(next), old(prev), w) ==> Alone(next, prev, w)
    {
      hide FilesOk, Ring, NoDups, Dropped, Without;
      DropKeepsFiles(files, lists, OfVersion(v));
      WithoutHas(ring, v);
      Unlink(next, prev, ring, v);
      var n, p := next[v], prev[v];
      prev := prev[n := p];
      next := next[p := n];
      ring := Without(ring, v);
      DropFiles(lists[OfVersion(v)]);
      lists := lists - {OfVersion(v)};
      refs := refs - {v};
    }

    method DropFiles(list: seq<nat>)
      modifies this`files
      ensures files == Dropped(old(files), list)
    {
      for i := 0 to |list|
        invariant files == Dropped(old(files), list[..i])
      {
        assert list[..i + 1][..i] == list[..i];
        var f := list[i];
        if f in files && files[f].refs > 1 {
          files := files[f := files[f].(refs := files[f].refs - 1)];
        } else {
          files := files - {f};
        }
      }
      assert list[..|list|] == list;
    }

    /** `Version::Unref`, for whoever gives the reference up. */
    method UnrefVersion(v: nat, ghost cs: multiset<nat>, ghost cur: Option<nat>, ghost b: Option<nat>,
                        ghost cs1: multiset<nat>, ghost cur1: Option<nat>, ghost b1: Option<nat>)
      requires Linked() && RefsOk(refs, cs, cur, b) && VersionsOk(refs, lists, ring, making)
      requires OneLess(v, cs, cur, b, cs1, cur1, b1)
      modifies this`files, this`lists, this`refs, this`next, this`prev, this`ring
      ensures Linked() && RefsOk(refs, cs1, cur1, b1) && VersionsOk(refs, lists, ring, making)
      ensures v in old(refs) && old(refs)[v] > 0
      ensures Given(v, old(refs), old(ring), old(lists), old(files), ring, lists, files)
    {
      hide FilesOk, Ring, NoDups, Dropped, RefsOk, VersionsOk, Without, AllBelow, Count;
      HasReference(refs, cs, cur, b, lists, ring, making, v);
      refs := refs[v := refs[v] - 1];
      if refs[v] == 0 {
        LetGo(old(refs), cs, cur, b, lists, ring, making, v, cs1, cur1, b1);
        RingIsPlain(refs, old(refs), lists, ring, making);
        FewerBelow(files, lists[OfVersion(v)], nextRecord);
        LessBelow(old(refs), v, nextVersion);
        assert refs - {v} == old(refs) - {v};
        DeleteVersion(v);
      } else {
        KeptAlive(old(refs), cs, cur, b, lists, ring, making, v, cs1, cur1, b1);
        BelowSame(old(refs), nextVersion, v, refs[v]);
      }
    }

    /** A client gives a version back. */
    method Unref(v: nat)
      requires Valid() && v in clients
      modifies this`files, this`lists, this`refs, this`next, this`prev, this`ring, this`clients
      ensures Valid() && clients == old(clients) - multiset{v}
      ensures Given(v, old(refs), old(ring), old(lists), old(files), ring, lists, files)
    {
      hide FilesOk, Ring, NoDups, Dropped, RefsOk, VersionsOk, Without, AllBelow, Given;
      UnrefVersion(v, clients, Some(current), base, clients - multiset{v}, Some(current), base);
      GivenOnlyVersions(v, old(refs), old(ring), old(lists), old(files), ring, lists, files);
      clients := clients - multiset{v};
    }

    method OpenBuilder()
      requires Valid() && base.None?
      modifies this`refs, this`base, this`lists
      ensures Valid() && base == Some(current) && lists == old(lists)[OfBuilder := []]
    {
      hide FilesOk, Ring, NoDups, RefsOk, VersionsOk, AllBelow;
      HasReference(refs, clients, Some(current), base, lists, ring, making, current);
      OneMoreReference(refs, clients, Some(current), base, lists, ring, making, current, clients, Some(current));
      BelowSame(refs, nextVersion, current, refs[current] + 1);
      NoFilesYet(files, lists);
      base := Some(current);
      refs := refs[current := refs[current] + 1];
      BuilderIsNoVersion(refs, lists, ring, making, []);
      lists := lists[OfBuilder := []];
    }

    /** A file that an edit adds gets a record of its own. */
    method AddFile(number: nat)
      requires Valid() && base.Some?
      modifies this`files, this`lists, this`nextRecord
      ensures Valid() && files == old(files)[old(nextRecord) := FileRecord(number, 1)]
      ensures lists == old(lists)[OfBuilder := old(lists)[OfBuilder] + [old(nextRecord)]]
    {
      hide FilesOk, Ring, NoDups, RefsOk, VersionsOk;
      AddKeepsFiles(files, lists, nextRecord, number);
      BuilderIsNoVersion(refs, lists, ring, making, lists[OfBuilder] + [nextRecord]);
      files := files[nextRecord := FileRecord(number, 1)];
      lists := lists[OfBuilder := lists[OfBuilder] + [nextRecord]];
      nextRecord := nextRecord + 1;
    }

    /** Makes a version of some of the files of the base and some of the added ones. */
    method SaveTo(kept: seq<nat>)
      requires Valid() && base.Some? && making.None? && NoDups(kept)
      requires FromBaseOrAdded(lists, base.value, kept)
      modifies this`files, this`lists, this`refs, this`making, this`nextVersion, this`next, this`prev
      ensures Valid() && making == Some(old(nextVersion)) && lists == old(lists)[OfVersion(old(nextVersion)) := kept]
      ensures files == Held(old(files), kept)
    {
      hide FilesOk, Ring, NoDups, Held, RefsOk, VersionsOk, AllBelow, Alone, AllListed, FromBaseOrAdded, HaveRecords;
      var v := nextVersion;
      Listed(lists, base.value, kept);
      NewIsOther(refs, clients, Some(current), base, lists, ring, making, v, kept);
      KeptAreFiles(files, lists, kept);
      HoldKeepsFiles(files, lists, OfVersion(v), kept);
      HeldBelow(files, kept, nextRecord);
      MoreBelow(refs, v);
      NewIsAlone(next, prev, ring, v);
      HoldFiles(kept);
      lists := lists[OfVersion(v) := kept];
      refs := refs[v := 0];
      next := next[v := v];
      prev := prev[v := v];
      making := Some(v);
      nextVersion := v + 1;
    }

    method HoldFiles(list: seq<nat>)
      requires HaveRecords(files, list)
      modifies this`files
      ensures files == Held(old(files), list)
    {
      for i := 0 to |list|
        invariant files == Held(old(files), list[..i])
        invariant forall f :: f in list ==> f in files
      {
        assert list[..i + 1][..i] == list[..i];
        files := files[list[i] := files[list[i]].(refs := files[list[i]].refs + 1)];
      }
      assert list[..|list|] == list;
    }

    /** The builder gives back the records it added, and its base. */
    method CloseBuilder()
      requires Valid() && base.Some?
      modifies this`files, this`lists, this`refs, this`next, this`prev, this`ring, this`base
      ensures Valid() && base.None? && OfBuilder in old(lists)
      ensures Given(old(base.value), old(refs), old(ring), old(lists) - {OfBuilder}, Dropped(old(files), old(lists)[OfBuilder]),
                    ring, lists, files)
    {
      hide FilesOk, Ring, NoDups, Dropped, RefsOk, VersionsOk, Without, AllBelow, Given;
      DropKeepsFiles(files, lists, OfBuilder);
      FewerBelow(files, lists[OfBuilder], nextRecord);
      BuilderGoes(refs, lists, ring, making);
      DropFiles(lists[OfBuilder]);
      lists := lists - {OfBuilder};
      var b := base.value;
      ghost var refs0, ring0, lists0, files0 := refs, ring, lists, files;
      UnrefVersion(b, clients, Some(current), base, clients, Some(current), None);
      GivenOnlyVersions(b, refs0, ring0, lists0, files0, ring, lists, files);
      base := None;
    }

    /** The new version becomes the current one. */
    method AppendVersion()
      requires Valid() && making.Some?
      modifies this`files, this`lists, this`refs, this`next, this`prev, this`ring, this`current, this`making
      ensures Valid() && making.None? && current == old(making.value)
      ensures ring != [] && ring[|ring| - 1] == current
      ensures Given(old(current), old(refs), old(ring), old(lists), old(files), ring[..|ring| - 1], lists, files)
    {
      hide FilesOk, Ring, NoDups, Dropped, RefsOk, VersionsOk, Without, AllBelow;
      hide Count, OneLess, Alone, Given;
      var v := making.value;
      NoLongerCurrent(clients, current, base);
      UnrefVersion(current, clients, Some(current), base, clients, None, base);
      GivenOnlyVersions(old(current), old(refs), old(ring), old(lists), old(files), ring, lists, files);
      ghost var others := ring;
      MakeCurrent(v);
      assert ring[..|ring| - 1] == others;
    }

    method MakeCurrent(v: nat)
      requires Linked() && RefsOk(refs, clients, None, base) && VersionsOk(refs, lists, ring, making) && making == Some(v)
      modifies this`refs, this`next, this`prev, this`ring, this`current, this`making
      ensures Linked() && RefsOk(refs, clients, Some(v), base) && VersionsOk(refs, lists, ring, making)
      ensures making.None? && current == v && ring == old(ring) + [v]
    {
      hide FilesOk, Ring, NoDups, RefsOk, VersionsOk, AllBelow, Alone;
      BecomesCurrent(refs, clients, base, lists, ring, making, v);
      BelowSame(refs, nextVersion, v, 1);
      current := v;
      refs := refs[v := refs[v] + 1];
      LinkLast(v);
      making := None;
    }

    method LinkLast(v: nat)
      requires Ring(next, prev, DUMMY, ring) && NoDups(ring) && DUMMY !in ring && v !in ring && v != DUMMY
      modifies this`next, this`prev, this`ring
      ensures Ring(next, prev, DUMMY, ring) && ring == old(ring) + [v]
    {
      hide Ring, NoDups;
      RingAppend(next, prev, DUMMY, ring, v);
      var last := prev[DUMMY];
      prev := prev[v := last];
      next := next[v := DUMMY];
      next := next[last := v];
      prev := prev[DUMMY := v];
      ring := ring + [v];
    }

    /** The edit could not be logged: the new version is dropped. */
    method AbandonVersion()
      requires Valid() && making.Some?
      modifies this`files, this`lists, this`refs, this`next, this`prev, this`ring, this`making
      ensures Valid() && making.None? && ring == old(ring) && OfVersion(old(making.value)) in old(lists)
      ensures lists == old(lists) - {OfVersion(old(making.value))}
      ensures files == Dropped(old(files), old(lists)[OfVersion(old(making.value))])
    {
      hide FilesOk, Ring, NoDups, Dropped, RefsOk, VersionsOk, Without, AllBelow;
      var v := making.value;
      MakingGoes(refs, clients, Some(current), base, lists, ring, making, v);
      FewerBelow(files, lists[OfVersion(v)], nextRecord);
      LessBelow(refs, v, nextVersion);
      making := None;
      DeleteVersion(v);
    }

    /** The numbers of all files that a version on the list lists, found by walking the list. */
    method AddLiveFiles(live0: set<nat>) returns (live: set<nat>)
      requires Valid()
      ensures forall n :: n in live <==> n in live0 || Live(files, lists, ring, n)
    {
      hide FilesOk, NoDups, Ring, Live;
      live := live0;
      ghost var i := 0;
      WalkStarts(next, prev, ring);
      var v := next[DUMMY];
      NoneLive(files, lists);
      while v != DUMMY
        invariant 0 <= i <= |ring| && v == At(DUMMY, ring, i)
        invariant forall n :: n in live <==> n in live0 || Live(files, lists, ring[..i], n)
        decreases |ring| - i
      {
        WalkOn(next, prev, ring, i);
        RingFiles(refs, lists, ring, making, files, v);
        OneMoreLive(files, lists, ring, i);
        live := live + Numbers(files, lists[OfVersion(v)]);
        v := next[v];
        i := i + 1;
      }
      WalkEnds(ring, i);
      assert ring[..|ring|] == ring;
    }

    /** Removes from the disk every table and temporary file that is neither being written nor listed by a
        version somebody has a reference to, and every log and manifest older than those in use. After a
        background error nothing is removed, and files of other kinds never are. */
    method DeleteObsoleteFiles(disk: set<DiskFile>, bgError: bool, logNumber: nat, prevLogNumber: nat, manifestNumber: nat)
        returns (kept: set<DiskFile>)
      requires Valid()
      ensures bgError ==> kept == disk
      ensures !bgError ==> kept <= disk && forall d :: d in disk ==>
                (d in kept <==>
                  match d
                  case LogFile(n) => n >= logNumber || n == prevLogNumber
                  case DescriptorFile(n) => n >= manifestNumber
                  case TableFile(n) => n in pendingOutputs || Live(files, lists, ring, n)
                  case TempFile(n) => n in pendingOutputs || Live(files, lists, ring, n)
                  case OtherFile(_) => true)
      ensures forall v, f ::
                (v in refs && refs[v] > 0 && OfVersion(v) in lists && f in lists[OfVersion(v)] && f in files) ==>
                  (TableFile(files[f].number) in disk ==> TableFile(files[f].number) in kept)
    {
      hide FilesOk, NoDups, Ring, Live;
      if bgError {
        return disk;
      }
      var live := AddLiveFiles(pendingOutputs);
      kept := set d | d in disk && Keeps(d, live, logNumber, prevLogNumber, manifestNumber);
      forall v, f | v in refs && refs[v] > 0 && OfVersion(v) in lists && f in lists[OfVersion(v)] && f in files
                    && TableFile(files[f].number) in disk
        ensures TableFile(files[f].number) in kept
      {
        assert v in ring;
        LiveWitness(files, lists, ring, v, f);
      }
    }
  }

  /** A version that is on no list is linked to itself. */
  ghost predicate Alone(next: map<nat, nat>, prev: map<nat, nat>, v: nat) {
    v in next && next[v] == v && v in prev && prev[v] == v
  }

  lemma Unlink(next: map<nat, nat>, prev: map<nat, nat>, ring: seq<nat>, v: nat)
    requires Ring(next, prev, DUMMY, ring) && NoDups(ring) && DUMMY !in ring && v != DUMMY
    requires v !in ring ==> Alone(next, prev, v)
    ensures v in next && v in prev
    ensures Ring(next[prev[v] := next[v]], prev[next[v] := prev[v]], DUMMY, Without(ring, v))
    ensures forall w :: w !in ring && w != DUMMY && Alone(next, prev, w) ==>
                          Alone(next[prev[v] := next[v]], prev[next[v] := prev[v]], w)
  {
    hide Ring, NoDups, Without;
    if v in ring {
      var k :| 0 <= k < |ring| && ring[k] == v;
      RingRemove(next, prev, DUMMY, ring, k);
      WithoutIs(ring, v, k);
      PlaceInList(DUMMY, ring, k - 1);
      PlaceInList(DUMMY, ring, k + 1);
    } else {
      WithoutNone(ring, v);
      RingFrame(next, prev, next[prev[v] := next[v]], prev[next[v] := prev[v]], DUMMY, ring);
    }
  }

  ghost predicate AllBelow<T>(m: map<nat, T>, n: nat) {
    forall k :: k in m ==> k < n
  }

  lemma BelowSame<T>(m: map<nat, T>, n: nat, k: nat, x: T)
    requires AllBelow(m, n) && k in m
    ensures AllBelow(m[k := x], n)
  {
  }

  lemma MoreBelow(refs: map<nat, nat>, n: nat)
    requires AllBelow(refs, n)
    ensures AllBelow(refs[n := 0], n + 1) && n !in refs
  {
  }

  lemma LessBelow(refs: map<nat, nat>, v: nat, n: nat)
    requires AllBelow(refs, n)
    ensures AllBelow(refs - {v}, n)
  {
  }

  lemma FewerBelow(files: map<nat, FileRecord>, list: seq<nat>, n: nat)
    requires AllBelow(files, n)
    ensures AllBelow(Dropped(files, list), n)
  {
    DroppedIsSubset(files, list);
  }

  lemma HeldBelow(files: map<nat, FileRecord>, list: seq<nat>, n: nat)
    requires AllBelow(files, n) && NoDups(list)
    ensures AllBelow(Held(files, list), n)
  {
    hide Held, NoDups;
    forall f | f in Held(files, list) ensures f < n {
      HeldIs(files, list, f);
    }
  }

  lemma {:induction false} DroppedIsSubset(files: map<nat, FileRecord>, list: seq<nat>)
    ensures forall f :: f in Dropped(files, list) ==> f in files
  {
    if list != [] {
      DroppedIsSubset(files, list[..|list| - 1]);
    }
  }

  lemma OneMoreReference(refs: map<nat, nat>, clients: multiset<nat>, current: Option<nat>, base: Option<nat>,
                         lists: map<Holder, seq<nat>>, ring: seq<nat>, making: Option<nat>, v: nat,
                         clients1: multiset<nat>, base1: Option<nat>)
    requires RefsOk(refs, clients, current, base) && VersionsOk(refs, lists, ring, making) && v in ring
    requires forall w :: Count(clients1, current, base1, w) == Count(clients, current, base, w) + if w == v then 1 else 0
    ensures v in refs && RefsOk(refs[v := refs[v] + 1], clients1, current, base1)
    ensures VersionsOk(refs[v := refs[v] + 1], lists, ring, making)
  {
    hide NoDups;
  }

  /** What the builder lists is nothing to the versions. */
  lemma BuilderIsNoVersion(refs: map<nat, nat>, lists: map<Holder, seq<nat>>, ring: seq<nat>, making: Option<nat>, list: seq<nat>)
    requires VersionsOk(refs, lists, ring, making)
    ensures VersionsOk(refs, lists[OfBuilder := list], ring, making)
  {
    hide NoDups;
  }

  lemma BuilderGoes(refs: map<nat, nat>, lists: map<Holder, seq<nat>>, ring: seq<nat>, making: Option<nat>)
    requires VersionsOk(refs, lists, ring, making)
    ensures VersionsOk(refs, lists - {OfBuilder}, ring, making)
  {
    hide NoDups;
  }

  lemma NoFilesYet(files: map<nat, FileRecord>, lists: map<Holder, seq<nat>>)
    requires FilesOk(files, lists) && OfBuilder !in lists
    ensures FilesOk(files, lists[OfBuilder := []])
  {
    HoldKeepsFiles(files, lists, OfBuilder, []);
  }

  lemma NewIsOther(refs: map<nat, nat>, clients: multiset<nat>, current: Option<nat>, base: Option<nat>,
                   lists: map<Holder, seq<nat>>, ring: seq<nat>, making: Option<nat>, v: nat, kept: seq<nat>)
    requires RefsOk(refs, clients, current, base) && VersionsOk(refs, lists, ring, making)
    requires AllBelow(refs, v) && making.None? && v >= 1
    ensures OfVersion(v) !in lists && v !in ring && v !in refs
    ensures RefsOk(refs[v := 0], clients, current, base)
    ensures VersionsOk(refs[v := 0], lists[OfVersion(v) := kept], ring, Some(v))
  {
    hide NoDups;
  }

  lemma NoLongerCurrent(clients: multiset<nat>, current: nat, base: Option<nat>)
    ensures OneLess(current, clients, Some(current), base, clients, None, base)
  {
  }

  lemma BecomesCurrent(refs: map<nat, nat>, clients: multiset<nat>, base: Option<nat>,
                       lists: map<Holder, seq<nat>>, ring: seq<nat>, making: Option<nat>, v: nat)
    requires RefsOk(refs, clients, None, base) && VersionsOk(refs, lists, ring, making) && making == Some(v)
    ensures v in refs && refs[v] == 0 && v !in ring && v != DUMMY && NoDups(ring) && DUMMY !in ring
    ensures RefsOk(refs[v := 1], clients, Some(v), base)
    ensures VersionsOk(refs[v := 1], lists, ring + [v], None)
  {
    hide NoDups;
    NoDupsGrow(ring, v);
  }

  lemma MakingGoes(refs: map<nat, nat>, clients: multiset<nat>, current: Option<nat>, base: Option<nat>,
                   lists: map<Holder, seq<nat>>, ring: seq<nat>, making: Option<nat>, v: nat)
    requires RefsOk(refs, clients, current, base) && VersionsOk(refs, lists, ring, making) && making == Some(v)
    ensures v in refs && OfVersion(v) in lists && v != DUMMY && v !in ring && NoDups(ring) && DUMMY !in ring
    ensures RefsOk(refs - {v}, clients, current, base) && Without(ring, v) == ring
    ensures VersionsOk(refs - {v}, lists - {OfVersion(v)}, ring, None)
  {
    hide NoDups;
    WithoutNone(ring, v);
  }

  lemma RingIsPlain(refs1: map<nat, nat>, refs: map<nat, nat>, lists: map<Holder, seq<nat>>, ring: seq<nat>, making: Option<nat>)
    requires VersionsOk(refs, lists, ring, making)
    ensures NoDups(ring) && DUMMY !in ring
    ensures making.Some? ==> making.value !in ring && making.value != DUMMY
  {
    hide NoDups;
  }

  lemma KeptAreFiles(files: map<nat, FileRecord>, lists: map<Holder, seq<nat>>, kept: seq<nat>)
    requires FilesOk(files, lists) && AllListed(lists, kept)
    ensures HaveRecords(files, kept)
  {
    hide NoDups, HoldersOf;
    forall f | f in kept ensures f in files {
      var h :| h in lists && f in lists[h];
    }
  }

  /** Files of the base version, and files that the builder has added. */
  ghost predicate FromBaseOrAdded(lists: map<Holder, seq<nat>>, b: nat, kept: seq<nat>) {
    forall f :: f in kept ==> (OfVersion(b) in lists && f in lists[OfVersion(b)]) || (OfBuilder in lists && f in lists[OfBuilder])
  }

  ghost predicate AllListed(lists: map<Holder, seq<nat>>, kept: seq<nat>) {
    forall f :: f in kept ==> exists h :: h in lists && f in lists[h]
  }

  lemma Listed(lists: map<Holder, seq<nat>>, b: nat, kept: seq<nat>)
    requires FromBaseOrAdded(lists, b, kept)
    ensures AllListed(lists, kept)
  {
  }

  lemma NewIsAlone(next: map<nat, nat>, prev: map<nat, nat>, ring: seq<nat>, v: nat)
    requires Ring(next, prev, DUMMY, ring) && v !in ring && v != DUMMY
    ensures Ring(next[v := v], prev[v := v], DUMMY, ring) && Alone(next[v := v], prev[v := v], v)
  {
    hide Ring;
    RingFrame(next, prev, next[v := v], prev[v := v], DUMMY, ring);
  }

  lemma WalkStarts(next: map<nat, nat>, prev: map<nat, nat>, ring: seq<nat>)
    requires Ring(next, prev, DUMMY, ring)
    ensures DUMMY in next && next[DUMMY] == At(DUMMY, ring, 0)
  {
    assert LinkedAt(next, prev, At(DUMMY, ring, -1), At(DUMMY, ring, 0));
  }

  lemma WalkOn(next: map<nat, nat>, prev: map<nat, nat>, ring: seq<nat>, i: nat)
    requires Ring(next, prev, DUMMY, ring) && i <= |ring| && At(DUMMY, ring, i) != DUMMY
    ensures i < |ring| && ring[i] == At(DUMMY, ring, i) && ring[i] in next && next[ring[i]] == At(DUMMY, ring, i + 1)
  {
    assert LinkedAt(next, prev, At(DUMMY, ring, i), At(DUMMY, ring, i + 1));
  }

  lemma WalkEnds(ring: seq<nat>, i: nat)
    requires i <= |ring| && At(DUMMY, ring, i) == DUMMY && DUMMY !in ring
    ensures i == |ring|
  {
    assert forall j :: 0 <= j < |ring| ==> ring[j] in ring;
  }

  lemma RingFiles(refs: map<nat, nat>, lists: map<Holder, seq<nat>>, ring: seq<nat>, making: Option<nat>,
                  files: map<nat, FileRecord>, v: nat)
    requires VersionsOk(refs, lists, ring, making) && FilesOk(files, lists) && v in ring
    ensures OfVersion(v) in lists && forall f :: f in lists[OfVersion(v)] ==> f in files
  {
    hide NoDups;
  }

  function Numbers(files: map<nat, FileRecord>, list: seq<nat>): (r: set<nat>)
    requires forall f :: f in list ==> f in files
    ensures forall n :: n in r <==> exists f :: f in list && files[f].number == n
  {
    set f | f in list :: files[f].number
  }

  lemma NoneLive(files: map<nat, FileRecord>, lists: map<Holder, seq<nat>>)
    ensures forall vs: seq<nat>, n :: vs == [] ==> !Live(files, lists, vs, n)
  {
  }

  lemma OneMoreLive(files: map<nat, FileRecord>, lists: map<Holder, seq<nat>>, ring: seq<nat>, i: nat)
    requires i < |ring| && OfVersion(ring[i]) in lists && forall f :: f in lists[OfVersion(ring[i])] ==> f in files
    ensures forall n :: Live(files, lists, ring[..i + 1], n) <==>
                        Live(files, lists, ring[..i], n) || n in Numbers(files, lists[OfVersion(ring[i])])
  {
    assert forall w :: w in ring[..i + 1] <==> w in ring[..i] || w == ring[i];
    forall n ensures Live(files, lists, ring[..i + 1], n) <==>
                     Live(files, lists, ring[..i], n) || n in Numbers(files, lists[OfVersion(ring[i])])
    {
    }
  }

  lemma LiveWitness(files: map<nat, FileRecord>, lists: map<Holder, seq<nat>>, vs: seq<nat>, v: nat, f: nat)
    requires v in vs && OfVersion(v) in lists && f in lists[OfVersion(v)] && f in files
    ensures Live(files, lists, vs, files[f].number)
  {
  }
}
