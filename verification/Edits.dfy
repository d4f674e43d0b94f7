/** Version edits and their meaning: replayed one after another, or gathered in one builder and saved
    once (db/version_set.cc, class VersionSet::Builder). When the two agree is stated on the edits.
    The seven levels of a version do not interact, so one level is modelled. */
module Edits {
  import opened Keys
  import opened Versions

  /** What one edit says about a level. */
  datatype LevelEdit = LevelEdit(deleted: seq<nat>, added: seq<FileMetaData>)

  /** The order of a level's list: by smallest key, ties by file number. */
  predicate BySmallestKey(f: FileMetaData, g: FileMetaData) {
    Less(f.Smallest(), g.Smallest()) || (f.Smallest() == g.Smallest() && f.number < g.number)
  }

  ghost predicate Ordered(fs: seq<FileMetaData>) {
    forall i, j :: 0 <= i < j < |fs| ==> BySmallestKey(fs[i], fs[j])
  }

  ghost function Files(fs: seq<FileMetaData>): set<FileMetaData> {
    set f | f in fs
  }

  /** `fs` lists exactly the files of `s`, in order. */
  ghost predicate Arranges(fs: seq<FileMetaData>, s: set<FileMetaData>) {
    Ordered(fs) && Files(fs) == s
  }

  /** Two files a level's list cannot tell apart. */
  predicate SamePlace(f: FileMetaData, g: FileMetaData) {
    f.Smallest() == g.Smallest() && f.number == g.number
  }

  /** Like `Ordered`, but files of the same place may stand next to each other. */
  ghost predicate WeaklyOrdered(fs: seq<FileMetaData>) {
    forall i, j :: 0 <= i < j < |fs| ==> !BySmallestKey(fs[j], fs[i])
  }

  ghost predicate NoneRepeats(fs: seq<FileMetaData>) {
    forall i, j :: 0 <= i < j < |fs| ==> !SamePlace(fs[i], fs[j])
  }

  lemma OrderTotal(f: FileMetaData, g: FileMetaData)
    ensures BySmallestKey(f, g) || SamePlace(f, g) || BySmallestKey(g, f)
    ensures SamePlace(f, g) ==> !BySmallestKey(f, g)
    ensures !(BySmallestKey(f, g) && BySmallestKey(g, f))
  {
  }

  lemma PlaceIsShared(f: FileMetaData, g: FileMetaData)
    ensures SamePlace(f, g) <==> SamePlace(g, f)
    ensures SamePlace(f, g) ==> f.number == g.number
  {
  }

  /** Transitivity, strict and not strict. */
  lemma OrderTransitive(f: FileMetaData, g: FileMetaData, h: FileMetaData)
    ensures BySmallestKey(f, g) && !BySmallestKey(h, g) ==> BySmallestKey(f, h)
    ensures !BySmallestKey(g, f) && BySmallestKey(g, h) ==> BySmallestKey(f, h)
    ensures !BySmallestKey(g, f) && !BySmallestKey(h, g) ==> !BySmallestKey(h, f)
  {
  }

  lemma OrderedIsStrict(fs: seq<FileMetaData>)
    ensures Ordered(fs) <==> WeaklyOrdered(fs) && NoneRepeats(fs)
  {
    hide BySmallestKey, SamePlace;
    forall i, j | 0 <= i < j < |fs|
      ensures BySmallestKey(fs[i], fs[j]) <==> !BySmallestKey(fs[j], fs[i]) && !SamePlace(fs[i], fs[j])
    {
      OrderTotal(fs[i], fs[j]);
    }
  }

  function Numbers(fs: seq<FileMetaData>): (r: seq<nat>)
    ensures |r| == |fs| && forall i :: 0 <= i < |fs| ==> r[i] == fs[i].number
  {
    if fs == [] then [] else [fs[0].number] + Numbers(fs[1..])
  }

  lemma NumberOf(fs: seq<FileMetaData>, n: nat)
    ensures n in Numbers(fs) <==> exists f :: f in fs && f.number == n
  {
    forall f | f in fs ensures f.number in Numbers(fs) {
      var i :| 0 <= i < |fs| && fs[i] == f;
      assert Numbers(fs)[i] == f.number;
    }
    if n in Numbers(fs) {
      var i :| 0 <= i < |fs| && Numbers(fs)[i] == n;
      assert fs[i] in fs && fs[i].number == n;
    }
  }

  // ----- what edits mean, one after another and all in one builder -----

  /** The meaning of an edit: deletions first, then additions. */
  ghost function Edited(s: set<FileMetaData>, e: LevelEdit): set<FileMetaData> {
    (set f | f in s && f.number !in e.deleted) + Files(e.added)
  }

  ghost function Replay(s: set<FileMetaData>, edits: seq<LevelEdit>): set<FileMetaData> {
    if edits == [] then s else Edited(Replay(s, edits[..|edits| - 1]), edits[|edits| - 1])
  }

  /** All added files, in the order of their addition. */
  ghost function AllAdded(edits: seq<LevelEdit>): seq<FileMetaData> {
    if edits == [] then [] else AllAdded(edits[..|edits| - 1]) + edits[|edits| - 1].added
  }

  ghost predicate Occupied(fs: seq<FileMetaData>, f: FileMetaData) {
    exists g :: g in fs && SamePlace(g, f)
  }

  /** `f` is added before any other file of its place. */
  ghost predicate ComesFirst(all: seq<FileMetaData>, f: FileMetaData) {
    exists i :: 0 <= i < |all| && all[i] == f && !Occupied(all[..i], f)
  }

  /** A std::set holds the first file of every place. */
  ghost function Firsts(all: seq<FileMetaData>): set<FileMetaData> {
    set f | f in all && ComesFirst(all, f)
  }

  ghost predicate NumberAddedFrom(edits: seq<LevelEdit>, k: nat, n: nat) {
    exists j :: k <= j < |edits| && n in Numbers(edits[j].added)
  }

  /** Each deletion of the number is followed by an addition of it, in the same edit or later. */
  ghost predicate Undeleted(edits: seq<LevelEdit>, n: nat) {
    forall k :: 0 <= k < |edits| && n in edits[k].deleted ==> NumberAddedFrom(edits, k, n)
  }

  /** What one builder makes of all the edits. */
  ghost function Survivors(s: set<FileMetaData>, edits: seq<LevelEdit>): set<FileMetaData> {
    set f | f in s + Firsts(AllAdded(edits)) && Undeleted(edits, f.number)
  }

  /** No surviving file of the base has the place of an added one. */
  ghost predicate KeepsPlaces(base: seq<FileMetaData>, edits: seq<LevelEdit>) {
    forall f, g :: f in base && g in AllAdded(edits) && SamePlace(f, g) ==> !Undeleted(edits, f.number)
  }

  /** The list a builder saves: the surviving files in order, and no place is taken twice exactly
      when the edits keep places. */
  ghost predicate Saves(base: seq<FileMetaData>, edits: seq<LevelEdit>, files: seq<FileMetaData>) {
    && WeaklyOrdered(files)
    && Files(files) == Survivors(Files(base), edits)
    && (Ordered(base) ==> (Ordered(files) <==> KeepsPlaces(base, edits)))
  }

  ghost predicate Distinct(s: seq<nat>) {
    forall i, j :: 0 <= i < j < |s| ==> s[i] != s[j]
  }

  /** No file number is added twice, counting the files of the base. */
  ghost predicate NoDoubleAdds(base: seq<FileMetaData>, edits: seq<LevelEdit>) {
    var all := Numbers(AllAdded(edits));
    && Distinct(all)
    && (forall f :: f in base ==> f.number !in all)
  }

  lemma AddedLast(edits: seq<LevelEdit>, e: LevelEdit)
    ensures AllAdded(edits + [e]) == AllAdded(edits) + e.added
  {
    assert (edits + [e])[..|edits|] == edits;
  }

  lemma AddedOne(e: LevelEdit)
    ensures AllAdded([e]) == e.added
  {
    AddedLast([], e);
    assert [] + [e] == [e];
  }

  lemma FirstsAppend(all: seq<FileMetaData>, f: FileMetaData)
    ensures Firsts(all + [f]) == Firsts(all) + (if Occupied(all, f) then {} else {f})
  {
    hide SamePlace, Occupied, ComesFirst;
    forall g ensures ComesFirst(all + [f], g) <==> ComesFirst(all, g) || (g == f && !Occupied(all, f)) {
      FirstOfMore(all, f, g);
    }
    forall g | ComesFirst(all, g) ensures g in all {
      FirstIsThere(all, g);
    }
  }

  lemma FirstIsThere(all: seq<FileMetaData>, f: FileMetaData)
    requires ComesFirst(all, f)
    ensures f in all
  {
    hide Occupied;
  }

  lemma FirstOfMore(all: seq<FileMetaData>, f: FileMetaData, g: FileMetaData)
    ensures ComesFirst(all + [f], g) <==> ComesFirst(all, g) || (g == f && !Occupied(all, f))
  {
    hide SamePlace, Occupied;
    var more := all + [f];
    assert more[..|all|] == all && more[|all|] == f;
    if ComesFirst(more, g) {
      var i :| 0 <= i < |more| && more[i] == g && !Occupied(more[..i], g);
      if i < |all| {
        assert more[..i] == all[..i] && all[i] == g;
      }
    }
    if ComesFirst(all, g) {
      var i :| 0 <= i < |all| && all[i] == g && !Occupied(all[..i], g);
      assert more[..i] == all[..i] && more[i] == g;
    }
  }

  lemma {:induction false} FirstsOccupy(all: seq<FileMetaData>, f: FileMetaData)
    requires Occupied(all, f)
    ensures exists g :: g in Firsts(all) && SamePlace(g, f)
  {
    hide Firsts, ComesFirst;
    var n := |all| - 1;
    assert all == all[..n] + [all[n]];
    FirstsAppend(all[..n], all[n]);
    if Occupied(all[..n], f) {
      FirstsOccupy(all[..n], f);
    } else {
      assert SamePlace(all[n], f);
      assert all[n] in Firsts(all);
    }
  }

  lemma UndeletedLast(edits: seq<LevelEdit>, e: LevelEdit, n: nat)
    ensures Undeleted(edits + [e], n) <==> n in Numbers(e.added) || (n !in e.deleted && Undeleted(edits, n))
  {
    hide Numbers;
    var more := edits + [e];
    assert more[|edits|] == e;
    assert forall k :: 0 <= k < |edits| ==> more[k] == edits[k];
    forall k | 0 <= k <= |edits| ensures NumberAddedFrom(more, k, n) <==> n in Numbers(e.added) || NumberAddedFrom(edits, k, n) {
      if NumberAddedFrom(edits, k, n) {
        var j :| k <= j < |edits| && n in Numbers(edits[j].added);
        assert n in Numbers(more[j].added);
      }
    }
    if Undeleted(more, n) && n !in Numbers(e.added) {
      forall k | 0 <= k < |edits| && n in edits[k].deleted ensures NumberAddedFrom(edits, k, n) {
        assert n in more[k].deleted;
      }
    }
  }

  // ----- when one builder over all edits agrees with going step by step -----

  /** The files normal operation ends with: after each edit, what a builder for it alone saves. */
  ghost function LiveFiles(s: set<FileMetaData>, edits: seq<LevelEdit>): set<FileMetaData> {
    if edits == [] then s else Survivors(LiveFiles(s, edits[..|edits| - 1]), [edits[|edits| - 1]])
  }

  /** The two ways to go step by step: as the edits ask, or as a builder for each edit saves it. */
  datatype Reading = Asked | Saved

  ghost function Walk(reading: Reading, s: set<FileMetaData>, edits: seq<LevelEdit>): set<FileMetaData> {
    if reading == Asked then Replay(s, edits) else LiveFiles(s, edits)
  }

  /** A step takes the number off the list. A builder spares the numbers its edit adds. */
  ghost predicate Drops(reading: Reading, e: LevelEdit, n: nat) {
    n in e.deleted && (reading == Asked || n !in Numbers(e.added))
  }

  /** A step puts the file on the list. A builder takes the first file of a place only. */
  ghost predicate Brings(reading: Reading, e: LevelEdit, f: FileMetaData) {
    f in e.added && (reading == Asked || f in Firsts(e.added))
  }

  ghost predicate DropsFrom(reading: Reading, edits: seq<LevelEdit>, k: nat, n: nat) {
    exists j :: k <= j < |edits| && Drops(reading, edits[j], n)
  }

  ghost predicate BringsFrom(reading: Reading, edits: seq<LevelEdit>, k: nat, f: FileMetaData) {
    exists j :: k <= j < |edits| && Brings(reading, edits[j], f)
  }

  /** The one builder holds the file: it is in the base, or added before any other of its place. */
  ghost predicate Held(s: set<FileMetaData>, edits: seq<LevelEdit>, f: FileMetaData) {
    f in s || f in Firsts(AllAdded(edits))
  }

  /** No file comes back: when a held file's number is dropped and later added again, to stay, the
      file itself is brought again. */
  ghost predicate NoneComesBack(reading: Reading, s: set<FileMetaData>, edits: seq<LevelEdit>) {
    forall f, k :: 0 <= k < |edits| && Held(s, edits, f) && Drops(reading, edits[k], f.number) && Undeleted(edits, f.number) ==>
      BringsFrom(reading, edits, k, f)
  }

  /** No file is shadowed: one that is brought, and not dropped later, is held. */
  ghost predicate NoneIsShadowed(reading: Reading, s: set<FileMetaData>, edits: seq<LevelEdit>) {
    forall f, j :: 0 <= j < |edits| && Brings(reading, edits[j], f) && !DropsFrom(reading, edits, j + 1, f.number) ==>
      Held(s, edits, f)
  }

  /** The file is on the list after all steps. */
  ghost predicate Stays(reading: Reading, s: set<FileMetaData>, edits: seq<LevelEdit>, f: FileMetaData) {
    || (f in s && !DropsFrom(reading, edits, 0, f.number))
    || exists j :: 0 <= j < |edits| && Brings(reading, edits[j], f) && !DropsFrom(reading, edits, j + 1, f.number)
  }

  lemma StaysLast(reading: Reading, s: set<FileMetaData>, edits: seq<LevelEdit>, e: LevelEdit, f: FileMetaData)
    ensures Stays(reading, s, edits + [e], f) <==>
              Brings(reading, e, f) || (Stays(reading, s, edits, f) && !Drops(reading, e, f.number))
  {
    hide Drops, Brings;
    var more, n := edits + [e], f.number;
    assert more[|edits|] == e;
    assert forall k :: 0 <= k < |edits| ==> more[k] == edits[k];
    forall k | 0 <= k <= |edits| ensures DropsFrom(reading, more, k, n) <==> DropsFrom(reading, edits, k, n) || Drops(reading, e, n) {
      if j :| k <= j < |edits| && Drops(reading, edits[j], n) {
        assert Drops(reading, more[j], n);
      }
    }
    if j :| 0 <= j < |edits| && Brings(reading, edits[j], f) && !DropsFrom(reading, edits, j + 1, n) {
      assert Brings(reading, more[j], f);
      assert !Drops(reading, e, n) ==> !DropsFrom(reading, more, j + 1, n);
    }
    if Brings(reading, e, f) {
      assert Brings(reading, more[|edits|], f) && !DropsFrom(reading, more, |edits| + 1, n);
    }
    if j :| 0 <= j < |more| && Brings(reading, more[j], f) && !DropsFrom(reading, more, j + 1, n) {
      assert j < |edits| ==> Brings(reading, edits[j], f) && !DropsFrom(reading, edits, j + 1, n);
    }
  }

  /** One step of a walk drops, then brings. */
  lemma OneStep(reading: Reading, s: set<FileMetaData>, edits: seq<LevelEdit>, f: FileMetaData)
    requires edits != []
    ensures var e := edits[|edits| - 1];
      f in Walk(reading, s, edits) <==>
        Brings(reading, e, f) || (f in Walk(reading, s, edits[..|edits| - 1]) && !Drops(reading, e, f.number))
  {
    var e := edits[|edits| - 1];
    AddedOne(e);
    UndeletedOne(e, f.number);
    if f in Firsts(e.added) {
      NumberOf(e.added, f.number);
    }
  }

  lemma UndeletedOne(e: LevelEdit, n: nat)
    ensures Undeleted([e], n) <==> !Drops(Saved, e, n)
  {
    UndeletedLast([], e, n);
    assert [] + [e] == [e];
  }

  lemma {:induction false} WalkStays(reading: Reading, s: set<FileMetaData>, edits: seq<LevelEdit>, f: FileMetaData)
    ensures f in Walk(reading, s, edits) <==> Stays(reading, s, edits, f)
  {
    hide Drops, Brings, Replay, LiveFiles;
    if edits == [] {
      WalkNone(reading, s);
    } else {
      var n := |edits| - 1;
      assert edits == edits[..n] + [edits[n]];
      WalkStays(reading, s, edits[..n], f);
      OneStep(reading, s, edits, f);
      StaysLast(reading, s, edits[..n], edits[n], f);
    }
  }

  lemma WalkNone(reading: Reading, s: set<FileMetaData>)
    ensures Walk(reading, s, []) == s
  {
  }

  lemma {:induction false} LastDrop(reading: Reading, edits: seq<LevelEdit>, i: nat, n: nat) returns (k: nat)
    requires DropsFrom(reading, edits, i, n)
    ensures i <= k < |edits| && Drops(reading, edits[k], n) && !DropsFrom(reading, edits, k + 1, n)
    decreases |edits| - i
  {
    k :| i <= k < |edits| && Drops(reading, edits[k], n);
    if DropsFrom(reading, edits, k + 1, n) {
      k := LastDrop(reading, edits, k + 1, n);
    }
  }

  /** A first of all added files is a first of its edit. */
  lemma {:induction false} FirstIsBrought(reading: Reading, edits: seq<LevelEdit>, f: FileMetaData)
    requires f in Firsts(AllAdded(edits))
    ensures BringsFrom(reading, edits, 0, f)
  {
    var n := |edits| - 1;
    var before, last := AllAdded(edits[..n]), edits[n].added;
    FirstsOfPlus(before, last, f);
    if f in Firsts(before) {
      FirstIsBrought(reading, edits[..n], f);
      var j :| 0 <= j < n && Brings(reading, edits[..n][j], f);
      assert Brings(reading, edits[j], f);
    } else {
      assert Brings(reading, edits[n], f);
    }
  }

  lemma FirstsOfPlus(all: seq<FileMetaData>, more: seq<FileMetaData>, f: FileMetaData)
    requires f in Firsts(all + more)
    ensures f in Firsts(all) || f in Firsts(more)
  {
    hide SamePlace;
    var both := all + more;
    var i :| 0 <= i < |both| && both[i] == f && !Occupied(both[..i], f);
    if i < |all| {
      assert both[..i] == all[..i];
    } else {
      assert both[..i] == all + more[..i - |all|];
      assert more[i - |all|] == f && !Occupied(more[..i - |all|], f);
    }
  }

  /** Nothing that is dropped and not brought again is undeleted, and the other way round. */
  lemma StaysUndeleted(reading: Reading, s: set<FileMetaData>, edits: seq<LevelEdit>, f: FileMetaData)
    requires Stays(reading, s, edits, f)
    ensures Undeleted(edits, f.number)
  {
    var n := f.number;
    forall k | 0 <= k < |edits| && n in edits[k].deleted ensures NumberAddedFrom(edits, k, n) {
      if n in Numbers(edits[k].added) {
      } else {
        assert Drops(reading, edits[k], n);
        var j :| 0 <= j < |edits| && Brings(reading, edits[j], f) && !DropsFrom(reading, edits, j + 1, n);
        NumberOf(edits[j].added, n);
        assert k <= j;
      }
    }
  }

  lemma SurvivorStays(reading: Reading, s: set<FileMetaData>, edits: seq<LevelEdit>, f: FileMetaData)
    requires NoneComesBack(reading, s, edits) && f in Survivors(s, edits)
    ensures Stays(reading, s, edits, f)
  {
    hide Drops, Brings, Undeleted, ComesFirst;
    var n := f.number;
    assert Held(s, edits, f);
    if DropsFrom(reading, edits, 0, n) {
      var k := LastDrop(reading, edits, 0, n);
      assert BringsFrom(reading, edits, k, f);
    } else if f !in s {
      FirstIsBrought(reading, edits, f);
    }
  }

  /** Saving one builder over all edits agrees with going step by step exactly when no file comes back
      and none is shadowed. */
  lemma SurvivorsAreWalked(reading: Reading, s: set<FileMetaData>, edits: seq<LevelEdit>)
    ensures Survivors(s, edits) == Walk(reading, s, edits) <==>
              NoneComesBack(reading, s, edits) && NoneIsShadowed(reading, s, edits)
  {
    hide Drops, Brings, Undeleted, ComesFirst, Walk;
    forall f ensures f in Walk(reading, s, edits) <==> Stays(reading, s, edits, f) {
      WalkStays(reading, s, edits, f);
    }
    forall f | Stays(reading, s, edits, f) ensures Undeleted(edits, f.number) {
      StaysUndeleted(reading, s, edits, f);
    }
    if NoneComesBack(reading, s, edits) && NoneIsShadowed(reading, s, edits) {
      forall f | f in Survivors(s, edits) ensures Stays(reading, s, edits, f) {
        SurvivorStays(reading, s, edits, f);
      }
      forall f | Stays(reading, s, edits, f) ensures f in Survivors(s, edits) {
        assert Held(s, edits, f);
      }
    }
    if Survivors(s, edits) == Walk(reading, s, edits) {
      forall f, k | 0 <= k < |edits| && Held(s, edits, f) && Drops(reading, edits[k], f.number) && Undeleted(edits, f.number)
        ensures BringsFrom(reading, edits, k, f)
      {
        assert f in Survivors(s, edits);
      }
      forall f, j | 0 <= j < |edits| && Brings(reading, edits[j], f) && !DropsFrom(reading, edits, j + 1, f.number)
        ensures Held(s, edits, f)
      {
        assert Stays(reading, s, edits, f);
      }
    }
  }

  /** A file number names one file, among the added files and those of the base that they meet. */
  ghost predicate NumberNamesFile(s: set<FileMetaData>, edits: seq<LevelEdit>) {
    forall f, g :: (f in s || f in AllAdded(edits)) && g in AllAdded(edits) && f.number == g.number ==> f == g
  }

  /** When numbers name files, it makes no difference how the edits are applied, even where a file is
      deleted and added again. */
  lemma NamedNumbersAgree(reading: Reading, s: set<FileMetaData>, edits: seq<LevelEdit>)
    requires NumberNamesFile(s, edits)
    ensures Survivors(s, edits) == Walk(reading, s, edits)
  {
    hide Firsts, Walk, Survivors;
    forall f, k | 0 <= k < |edits| && Held(s, edits, f) && Drops(reading, edits[k], f.number) && Undeleted(edits, f.number)
      ensures BringsFrom(reading, edits, k, f)
    {
      HeldIsKnown(s, edits, f);
      var j :| k <= j < |edits| && f.number in Numbers(edits[j].added);
      NumberOf(edits[j].added, f.number);
      var g :| g in edits[j].added && g.number == f.number;
      AddedInAll(edits, j, g);
      NamedAreFirsts(edits[j].added, f);
    }
    forall f, j | 0 <= j < |edits| && Brings(reading, edits[j], f) ensures Held(s, edits, f) {
      AddedInAll(edits, j, f);
      NamedAreFirsts(AllAdded(edits), f);
    }
    SurvivorsAreWalked(reading, s, edits);
  }

  lemma HeldIsKnown(s: set<FileMetaData>, edits: seq<LevelEdit>, f: FileMetaData)
    requires Held(s, edits, f)
    ensures f in s || f in AllAdded(edits)
  {
  }

  lemma {:induction false} AddedInAll(edits: seq<LevelEdit>, j: nat, f: FileMetaData)
    requires j < |edits| && f in edits[j].added
    ensures f in AllAdded(edits)
    ensures forall g :: g in edits[j].added ==> g in AllAdded(edits)
  {
    if j < |edits| - 1 {
      AddedInAll(edits[..|edits| - 1], j, f);
    }
  }

  lemma {:induction false} NamedAreFirsts(all: seq<FileMetaData>, f: FileMetaData)
    requires f in all && forall g, h :: g in all && h in all && g.number == h.number ==> g == h
    ensures f in Firsts(all)
  {
    hide Firsts;
    var n := |all| - 1;
    assert all == all[..n] + [all[n]];
    FirstsAppend(all[..n], all[n]);
    if f in all[..n] {
      NamedAreFirsts(all[..n], f);
    }
  }

  lemma AddedOnceNames(base: seq<FileMetaData>, edits: seq<LevelEdit>)
    requires NoDoubleAdds(base, edits)
    ensures NumberNamesFile(Files(base), edits) && KeepsPlaces(base, edits)
  {
    hide Undeleted;
    var all := AllAdded(edits);
    forall f, g | (f in base || f in all) && g in all && f.number == g.number ensures f in all && f == g {
      var j :| 0 <= j < |all| && all[j] == g;
      assert Numbers(all)[j] == g.number && g.number in Numbers(all);
      var i :| 0 <= i < |all| && all[i] == f;
      assert Numbers(all)[i] == f.number;
    }
    forall f, g | f in base && g in all ensures !SamePlace(f, g) {
      NumberOf(all, g.number);
    }
  }

  /** What one edit asks for is what a builder saves for it exactly when it adds again each file whose
      number it deletes and adds, and no two different files of one place unless the list has the other. */
  lemma SavedAsAsked(s: set<FileMetaData>, e: LevelEdit)
    ensures Survivors(s, [e]) == Edited(s, e) <==>
              && (forall f :: f in s && f.number in e.deleted && f.number in Numbers(e.added) ==> f in e.added)
              && (forall f :: f in e.added ==> f in s || f in Firsts(e.added))
  {
    hide Firsts, Undeleted;
    AddedOne(e);
    forall f ensures f in Survivors(s, [e]) <==> (f in s || f in Firsts(e.added)) && !Drops(Saved, e, f.number) {
      UndeletedOne(e, f.number);
    }
    forall f | f in e.added ensures f.number in Numbers(e.added) {
      NumberOf(e.added, f.number);
    }
    assert forall f :: f in Firsts(e.added) ==> f in e.added by {
      FirstsAreAdded(e.added);
    }
  }

  lemma FirstsAreAdded(all: seq<FileMetaData>)
    ensures forall f :: f in Firsts(all) ==> f in all
  {
  }

  lemma ReplayOne(s: set<FileMetaData>, e: LevelEdit)
    ensures Replay(s, [e]) == Edited(s, e)
  {
    assert [e][..0] == [];
    assert Replay(s, []) == s;
  }

  // ----- recovery and normal operation -----

  /** A file set has only one ordered listing. */
  lemma {:induction false} ArrangementUnique(fs: seq<FileMetaData>, gs: seq<FileMetaData>)
    requires Ordered(fs) && Ordered(gs) && Files(fs) == Files(gs)
    ensures fs == gs
  {
    if fs == [] {
      assert forall i :: 0 <= i < |gs| ==> gs[i] in Files(gs);
    } else {
      assert fs[0] in Files(fs);
      assert gs[0] in Files(gs);
      var i :| 0 <= i < |gs| && gs[i] == fs[0];
      var j :| 0 <= j < |fs| && fs[j] == gs[0];
      assert fs[0] == gs[0];
      forall f | f in Files(fs[1..]) ensures f in Files(gs[1..]) {
        var k :| 1 <= k < |fs| && fs[k] == f;
        assert f in Files(gs) && BySmallestKey(fs[0], f);
      }
      forall g | g in Files(gs[1..]) ensures g in Files(fs[1..]) {
        var k :| 1 <= k < |gs| && gs[k] == g;
        assert g in Files(fs) && BySmallestKey(gs[0], g);
      }
      ArrangementUnique(fs[1..], gs[1..]);
    }
  }

  /** A saved list under edits that add no number twice: the replayed files, ordered. */
  lemma SavedOnce(base: seq<FileMetaData>, edits: seq<LevelEdit>, files: seq<FileMetaData>)
    requires Ordered(base) && NoDoubleAdds(base, edits) && Saves(base, edits, files)
    ensures Arranges(files, Replay(Files(base), edits))
  {
    AddedOnceNames(base, edits);
    NamedNumbersAgree(Asked, Files(base), edits);
  }

  /** The lists of normal operation: each edit is saved on top of the list before. */
  ghost predicate LiveLists(versions: seq<seq<FileMetaData>>, edits: seq<LevelEdit>) {
    && |versions| == |edits| + 1 && WeaklyOrdered(versions[0])
    && forall i :: 0 <= i < |edits| && WeaklyOrdered(versions[i]) ==> Saves(versions[i], [edits[i]], versions[i + 1])
  }

  /** Normal operation ends with the files of history; when no file number is added twice, that is the
      ordered list of all edits replayed. */
  lemma {:induction false} RecoveryEqualsHistory(versions: seq<seq<FileMetaData>>, edits: seq<LevelEdit>)
    requires LiveLists(versions, edits)
    ensures WeaklyOrdered(versions[|edits|]) && Files(versions[|edits|]) == LiveFiles(Files(versions[0]), edits)
    ensures Ordered(versions[0]) && NoDoubleAdds(versions[0], edits) ==>
              Arranges(versions[|edits|], Replay(Files(versions[0]), edits))
  {
    hide WeaklyOrdered, Ordered, Survivors, NoDoubleAdds, KeepsPlaces, Replay;
    if edits == [] {
      ReplayNone(Files(versions[0]));
    } else {
      var n := |edits| - 1;
      assert edits == edits[..n] + [edits[n]];
      RecoveryEqualsHistory(versions[..n + 1], edits[..n]);
      assert Saves(versions[n], [edits[n]], versions[n + 1]);
      if Ordered(versions[0]) && NoDoubleAdds(versions[0], edits) {
        AddsShrink(versions[0], edits[..n], edits[n]);
        LastEditIsOnce(versions[0], edits[..n], edits[n], versions[n]);
        SavedOnce(versions[n], [edits[n]], versions[n + 1]);
        ReplayOne(Files(versions[n]), edits[n]);
        ReplayLast(Files(versions[0]), edits[..n], edits[n]);
      }
    }
  }

  lemma ReplayNone(s: set<FileMetaData>)
    ensures Replay(s, []) == s
  {
  }

  lemma ReplayLast(s: set<FileMetaData>, edits: seq<LevelEdit>, e: LevelEdit)
    ensures Replay(s, edits + [e]) == Edited(Replay(s, edits), e)
  {
    assert (edits + [e])[..|edits|] == edits;
  }

  lemma AddsShrink(base: seq<FileMetaData>, edits: seq<LevelEdit>, e: LevelEdit)
    requires NoDoubleAdds(base, edits + [e])
    ensures NoDoubleAdds(base, edits)
  {
    AddedLast(edits, e);
    var all, shorter := Numbers(AllAdded(edits + [e])), Numbers(AllAdded(edits));
    assert forall i :: 0 <= i < |shorter| ==> all[i] == shorter[i];
  }

  lemma LastEditIsOnce(base: seq<FileMetaData>, edits: seq<LevelEdit>, e: LevelEdit, current: seq<FileMetaData>)
    requires NoDoubleAdds(base, edits + [e]) && Files(current) == Replay(Files(base), edits)
    ensures NoDoubleAdds(current, [e])
  {
    hide Numbers, AllAdded, Distinct, Replay;
    AddedLast(edits, e);
    AddedOne(e);
    NumbersPlus(AllAdded(edits), e.added);
    DistinctParts(Numbers(AllAdded(edits)), Numbers(e.added));
    forall f | f in current ensures f.number !in Numbers(e.added) {
      assert f in Files(current);
      ReplayedFiles(Files(base), edits, f);
      NumberOf(AllAdded(edits), f.number);
    }
  }

  lemma NumbersPlus(fs: seq<FileMetaData>, gs: seq<FileMetaData>)
    ensures Numbers(fs + gs) == Numbers(fs) + Numbers(gs)
  {
  }

  lemma DistinctParts(a: seq<nat>, b: seq<nat>)
    requires Distinct(a + b)
    ensures Distinct(b) && (forall n :: n in a ==> n !in b) && forall n :: n in b ==> n in a + b
  {
    var all := a + b;
    assert forall i :: 0 <= i < |a| ==> all[i] == a[i];
    forall i, j | 0 <= i < j < |b| ensures b[i] != b[j] {
      assert all[|a| + i] == b[i] && all[|a| + j] == b[j];
    }
    forall i, j | 0 <= i < |a| && 0 <= j < |b| ensures a[i] != b[j] {
      assert all[i] == a[i] && all[|a| + j] == b[j];
    }
  }

  lemma {:induction false} ReplayedFiles(s: set<FileMetaData>, edits: seq<LevelEdit>, f: FileMetaData)
    requires f in Replay(s, edits)
    ensures f in s || f in AllAdded(edits)
  {
    if edits != [] && f !in edits[|edits| - 1].added {
      ReplayedFiles(s, edits[..|edits| - 1], f);
    }
  }

  /** Recovered list and final list of normal operation hold the same files exactly when no file comes
      back and none is shadowed; as ordered lists they then are the same sequence. They are when no file
      number is added twice. */
  lemma RecoveredListIsCurrent(versions: seq<seq<FileMetaData>>, edits: seq<LevelEdit>, recovered: seq<FileMetaData>)
    requires LiveLists(versions, edits) && Saves(versions[0], edits, recovered)
    ensures var base, current := Files(versions[0]), versions[|edits|];
      && (Files(recovered) == Files(current) <==> NoneComesBack(Saved, base, edits) && NoneIsShadowed(Saved, base, edits))
      && (Ordered(recovered) && Ordered(current) ==>
            (recovered == current <==> NoneComesBack(Saved, base, edits) && NoneIsShadowed(Saved, base, edits)))
    ensures Ordered(versions[0]) && NoDoubleAdds(versions[0], edits) ==> recovered == versions[|edits|]
  {
    hide WeaklyOrdered, Ordered, Survivors, NoDoubleAdds, KeepsPlaces, Replay, NoneComesBack, NoneIsShadowed, LiveFiles, Files;
    RecoveryEqualsHistory(versions, edits);
    SurvivorsAreWalked(Saved, Files(versions[0]), edits);
    if Ordered(recovered) && Ordered(versions[|edits|]) && Files(recovered) == Files(versions[|edits|]) {
      ArrangementUnique(recovered, versions[|edits|]);
    }
    if Ordered(versions[0]) && NoDoubleAdds(versions[0], edits) {
      SavedOnce(versions[0], edits, recovered);
    }
  }

  /** `WriteSnapshot`: one edit that adds the whole current list. */
  function SnapshotEdit(current: seq<FileMetaData>): LevelEdit {
    LevelEdit([], current)
  }

  /** Replaying a snapshot record from nothing gives back the list it was written from. */
  lemma SnapshotRebuilds(current: seq<FileMetaData>, recovered: seq<FileMetaData>)
    requires Ordered(current) && Saves([], [SnapshotEdit(current)], recovered)
    ensures recovered == current
  {
    var e := SnapshotEdit(current);
    AddedOne(e);
    OrderedIsStrict(current);
    forall f | f in current ensures f in Firsts(current) {
      StrictAreFirsts(current, f);
    }
    assert forall n :: Undeleted([e], n);
    assert Survivors({}, [e]) == Files(current);
    ArrangementUnique(recovered, current);
  }

  lemma StrictAreFirsts(all: seq<FileMetaData>, f: FileMetaData)
    requires f in all && NoneRepeats(all)
    ensures f in Firsts(all)
  {
    hide SamePlace;
    var i :| 0 <= i < |all| && all[i] == f;
    assert !Occupied(all[..i], f);
  }
}
