/** The builder that gathers version edits and saves a level's new list (db/version_set.cc, class
    VersionSet::Builder). The seven levels of a builder do not interact, so one level's state is modelled. */
module Builder {
  import opened Keys
  import opened Sequences
  import opened Versions
  import opened Edits

  /** A file set ordered by smallest key (a std::set): an equivalent element is not inserted again. */
  function InsertBySmallest(f: FileMetaData, fs: seq<FileMetaData>): (r: seq<FileMetaData>)
    requires Ordered(fs)
    ensures Ordered(r)
    ensures Files(r) == Files(fs) + (if Occupied(fs, f) then {} else {f})
  {
    if fs == [] then [f]
    else
      InsertPlace(f, fs);
      if BySmallestKey(f, fs[0]) then [f] + fs
      else if !BySmallestKey(fs[0], f) then fs
      else
        var rest := InsertBySmallest(f, fs[1..]);
        FirstBeforeRest(f, fs, rest);
        [fs[0]] + rest
  }

  lemma InsertPlace(f: FileMetaData, fs: seq<FileMetaData>)
    requires Ordered(fs) && fs != []
    ensures Ordered(fs[1..])
    ensures BySmallestKey(f, fs[0]) ==> Ordered([f] + fs) && !Occupied(fs, f) && Files([f] + fs) == Files(fs) + {f}
    ensures !BySmallestKey(f, fs[0]) && !BySmallestKey(fs[0], f) ==> Occupied(fs, f)
    ensures BySmallestKey(fs[0], f) ==> (Occupied(fs, f) <==> Occupied(fs[1..], f))
  {
    hide BySmallestKey, SamePlace;
    OrderTotal(f, fs[0]);
    OrderTotal(fs[0], f);
    PlaceIsShared(f, fs[0]);
    assert fs[0] in fs;
    assert forall g :: g in fs <==> g == fs[0] || g in fs[1..];
    if BySmallestKey(f, fs[0]) {
      forall i | 0 <= i < |fs| ensures BySmallestKey(f, fs[i]) {
        OrderTotal(fs[i], fs[0]);
        OrderTotal(fs[0], fs[i]);
        OrderTransitive(f, fs[0], fs[i]);
      }
      forall g | g in fs ensures !SamePlace(g, f) {
        OrderTotal(f, g);
        PlaceIsShared(f, g);
      }
    }
  }

  lemma FirstBeforeRest(f: FileMetaData, fs: seq<FileMetaData>, rest: seq<FileMetaData>)
    requires Ordered(fs) && fs != [] && BySmallestKey(fs[0], f) && Ordered(rest)
    requires Files(fs[1..]) <= Files(rest) <= Files(fs[1..]) + {f}
    ensures Ordered([fs[0]] + rest)
    ensures Files([fs[0]] + rest) == Files(rest) + {fs[0]} && Files(fs) == Files(fs[1..]) + {fs[0]}
  {
    hide BySmallestKey;
    assert forall i :: 0 <= i < |rest| ==> rest[i] in Files(rest);
  }

  // ----- merging two lists, without the deleted files -----

  ghost function NotDeleted(deleted: set<nat>, fs: seq<FileMetaData>): set<FileMetaData> {
    set f | f in fs && f.number !in deleted
  }

  ghost predicate NotAfter(fs: seq<FileMetaData>, gs: seq<FileMetaData>) {
    forall f, g :: f in fs && g in gs ==> !BySmallestKey(g, f)
  }

  /** A file that stays in `fs` and one that stays in `gs` have the same place. */
  ghost predicate Clash(deleted: set<nat>, fs: seq<FileMetaData>, gs: seq<FileMetaData>) {
    exists f, g :: f in NotDeleted(deleted, fs) && g in NotDeleted(deleted, gs) && SamePlace(f, g)
  }

  /** `files` holds what the first `i` files of `fs` and the first `j` of `gs` contribute, in order;
      it repeats a place exactly when the two lists share one. */
  ghost predicate Merged(deleted: set<nat>, files: seq<FileMetaData>,
                         fs: seq<FileMetaData>, i: nat, gs: seq<FileMetaData>, j: nat)
    requires i <= |fs| && j <= |gs|
  {
    && Files(files) == NotDeleted(deleted, fs[..i]) + NotDeleted(deleted, gs[..j])
    && WeaklyOrdered(files) && NotAfter(files, fs[i..]) && NotAfter(files, gs[j..])
    && (NoneRepeats(fs) && NoneRepeats(gs) ==> (NoneRepeats(files) <==> !Clash(deleted, fs[..i], gs[..j])))
  }

  lemma MergedSwaps(deleted: set<nat>, files: seq<FileMetaData>,
                    fs: seq<FileMetaData>, i: nat, gs: seq<FileMetaData>, j: nat)
    requires i <= |fs| && j <= |gs|
    ensures Merged(deleted, files, fs, i, gs, j) <==> Merged(deleted, files, gs, j, fs, i)
  {
    hide BySmallestKey, WeaklyOrdered, NoneRepeats, NotAfter;
  }

  lemma MergedNone(deleted: set<nat>, fs: seq<FileMetaData>, gs: seq<FileMetaData>)
    ensures Merged(deleted, [], fs, 0, gs, 0)
  {
    hide BySmallestKey, SamePlace;
  }

  /** What stays of a list. */
  function WithoutDeleted(deleted: set<nat>, fs: seq<FileMetaData>): seq<FileMetaData> {
    if fs == [] then []
    else
      var f := fs[|fs| - 1];
      WithoutDeleted(deleted, fs[..|fs| - 1]) + (if f.number in deleted then [] else [f])
  }

  lemma KeptNone(deleted: set<nat>, fs: seq<FileMetaData>, i: nat)
    requires i <= |fs|
    ensures WithoutDeleted(deleted, fs[i..i]) == []
  {
  }

  lemma KeptLast(deleted: set<nat>, fs: seq<FileMetaData>, f: FileMetaData)
    ensures WithoutDeleted(deleted, fs + [f]) == WithoutDeleted(deleted, fs) + (if f.number in deleted then [] else [f])
  {
    assert (fs + [f])[..|fs|] == fs;
  }

  function MaybeAdded(deleted: set<nat>, files: seq<FileMetaData>, f: FileMetaData): seq<FileMetaData> {
    if f.number in deleted then files else files + [f]
  }

  lemma {:induction false} TakeRun(deleted: set<nat>, files: seq<FileMetaData>,
                                   fs: seq<FileMetaData>, i: nat, k: nat, gs: seq<FileMetaData>, j: nat)
    requires i <= k <= |fs| && j <= |gs| && WeaklyOrdered(fs) && WeaklyOrdered(gs)
    requires Merged(deleted, files, fs, i, gs, j)
    requires j < |gs| ==> forall m :: i <= m < k ==> !BySmallestKey(gs[j], fs[m])
    ensures Merged(deleted, files + WithoutDeleted(deleted, fs[i..k]), fs, k, gs, j)
    decreases k
  {
    hide BySmallestKey, WeaklyOrdered, Merged, WithoutDeleted;
    if i == k {
      KeptNone(deleted, fs, i);
      assert files + [] == files;
    } else {
      TakeRun(deleted, files, fs, i, k - 1, gs, j);
      SliceAppend(fs, i, k - 1);
      KeptLast(deleted, fs[i..k - 1], fs[k - 1]);
      var taken := files + WithoutDeleted(deleted, fs[i..k - 1]);
      TakeNext(deleted, taken, fs, k - 1, gs, j);
      assert MaybeAdded(deleted, taken, fs[k - 1]) == files + WithoutDeleted(deleted, fs[i..k]);
    }
  }

  lemma NextComesFirst(base: seq<FileMetaData>, c: nat, f: FileMetaData)
    requires c <= |base| && (c < |base| ==> BySmallestKey(f, base[c]))
    ensures c < |base| ==> !BySmallestKey(base[c], f)
  {
    if c < |base| {
      OrderTotal(f, base[c]);
    }
  }

  /** Taking the next file of one list, when the next of the other list does not come before it. */
  lemma TakeNext(deleted: set<nat>, files: seq<FileMetaData>,
                 fs: seq<FileMetaData>, i: nat, gs: seq<FileMetaData>, j: nat)
    requires i < |fs| && j <= |gs| && WeaklyOrdered(fs) && WeaklyOrdered(gs)
    requires Merged(deleted, files, fs, i, gs, j)
    requires j < |gs| ==> !BySmallestKey(gs[j], fs[i])
    ensures Merged(deleted, MaybeAdded(deleted, files, fs[i]), fs, i + 1, gs, j)
  {
    hide BySmallestKey, NoneRepeats, SamePlace, Clash, NotDeleted, WeaklyOrdered, NotAfter;
    KeptNext(deleted, fs, i);
    NextIsNotAfter(fs, i, gs, j);
    AppendKeepsOrder(files, fs, i, gs[j..]);
    assert Files(files + [fs[i]]) == Files(files) + {fs[i]};
    if NoneRepeats(fs) && NoneRepeats(gs) {
      NextClashes(deleted, files, fs, i, gs, j);
    }
  }

  lemma AppendKeepsOrder(files: seq<FileMetaData>, fs: seq<FileMetaData>, i: nat, gs: seq<FileMetaData>)
    requires i < |fs| && WeaklyOrdered(files) && NotAfter(files, fs[i..]) && NotAfter(files, gs)
    requires NotAfter([fs[i]], fs[i + 1..]) && NotAfter([fs[i]], gs)
    ensures WeaklyOrdered(files + [fs[i]]) && NotAfter(files, fs[i + 1..])
    ensures NotAfter(files + [fs[i]], fs[i + 1..]) && NotAfter(files + [fs[i]], gs)
  {
    hide BySmallestKey;
    var more := files + [fs[i]];
    assert fs[i] in fs[i..] && fs[i] in [fs[i]];
    assert forall g :: g in fs[i + 1..] ==> g in fs[i..];
    assert forall g :: g in more ==> g in files || g == fs[i];
    forall k, m | 0 <= k < m < |more| ensures !BySmallestKey(more[m], more[k]) {
      assert more[k] == files[k] && more[k] in files;
    }
  }

  lemma NextIsNotAfter(fs: seq<FileMetaData>, i: nat, gs: seq<FileMetaData>, j: nat)
    requires i < |fs| && j <= |gs| && WeaklyOrdered(fs) && WeaklyOrdered(gs)
    requires j < |gs| ==> !BySmallestKey(gs[j], fs[i])
    ensures NotAfter([fs[i]], fs[i + 1..]) && NotAfter([fs[i]], gs[j..])
  {
    hide BySmallestKey;
    forall g | g in gs[j..] ensures !BySmallestKey(g, fs[i]) {
      var k :| j <= k < |gs| && gs[k] == g;
      OrderTransitive(fs[i], gs[j], gs[k]);
    }
  }

  lemma NextClashes(deleted: set<nat>, files: seq<FileMetaData>,
                    fs: seq<FileMetaData>, i: nat, gs: seq<FileMetaData>, j: nat)
    requires i < |fs| && j <= |gs| && NoneRepeats(fs)
    requires Files(files) == NotDeleted(deleted, fs[..i]) + NotDeleted(deleted, gs[..j])
    requires NoneRepeats(files) <==> !Clash(deleted, fs[..i], gs[..j])
    ensures NoneRepeats(MaybeAdded(deleted, files, fs[i])) <==> !Clash(deleted, fs[..i + 1], gs[..j])
  {
    hide SamePlace, NoneRepeats, Clash;
    var f := fs[i];
    KeptNext(deleted, fs, i);
    if f.number !in deleted {
      RepeatsNext(files, f);
      ClashNext(deleted, fs, i, gs[..j]);
      OwnPlaces(fs, i);
      assert Occupied(files, f) <==> Occupies(NotDeleted(deleted, gs[..j]), f) by {
        if g :| g in files && SamePlace(g, f) {
          assert g in Files(files);
        }
        if g :| g in NotDeleted(deleted, gs[..j]) && SamePlace(g, f) {
          assert g in Files(files);
        }
      }
    } else {
      assert NotDeleted(deleted, fs[..i + 1]) == NotDeleted(deleted, fs[..i]);
      ClashKept(deleted, fs[..i], fs[..i + 1], gs[..j]);
    }
  }

  ghost predicate Occupies(s: set<FileMetaData>, f: FileMetaData) {
    exists g :: g in s && SamePlace(g, f)
  }

  lemma KeptNext(deleted: set<nat>, fs: seq<FileMetaData>, i: nat)
    requires i < |fs|
    ensures NotDeleted(deleted, fs[..i + 1]) == NotDeleted(deleted, fs[..i]) + (if fs[i].number in deleted then {} else {fs[i]})
  {
    PrefixAppend(fs, i);
  }

  lemma RepeatsNext(files: seq<FileMetaData>, f: FileMetaData)
    ensures NoneRepeats(files + [f]) <==> NoneRepeats(files) && !Occupied(files, f)
  {
    hide SamePlace;
    var more := files + [f];
    assert forall i :: 0 <= i < |files| ==> more[i] == files[i];
    if NoneRepeats(more) {
      forall g | g in files ensures !SamePlace(g, f) {
        var i :| 0 <= i < |files| && files[i] == g;
        assert !SamePlace(more[i], more[|files|]);
      }
      assert forall i, j :: 0 <= i < j < |files| ==> !SamePlace(more[i], more[j]);
    }
  }

  lemma ClashNext(deleted: set<nat>, fs: seq<FileMetaData>, i: nat, gs: seq<FileMetaData>)
    requires i < |fs| && fs[i].number !in deleted
    ensures Clash(deleted, fs[..i + 1], gs) <==> Clash(deleted, fs[..i], gs) || Occupies(NotDeleted(deleted, gs), fs[i])
  {
    hide SamePlace, NotDeleted;
    KeptNext(deleted, fs, i);
    forall f, g ensures SamePlace(f, g) <==> SamePlace(g, f) {
      PlaceIsShared(f, g);
    }
  }

  lemma ClashKept(deleted: set<nat>, fs: seq<FileMetaData>, hs: seq<FileMetaData>, gs: seq<FileMetaData>)
    requires NotDeleted(deleted, fs) == NotDeleted(deleted, hs)
    ensures Clash(deleted, fs, gs) <==> Clash(deleted, hs, gs)
  {
    hide SamePlace, NotDeleted;
  }

  lemma OwnPlaces(fs: seq<FileMetaData>, i: nat)
    requires i < |fs| && NoneRepeats(fs)
    ensures !Occupied(fs[..i], fs[i])
  {
    hide SamePlace;
  }

  // ----- the builder -----

  class LevelState {
    const base: seq<FileMetaData>
    var deletedFiles: set<nat>
    var addedFiles: seq<FileMetaData>
    ghost var applied: seq<LevelEdit>

    /** The files this state will save. */
    ghost function Surviving(): set<FileMetaData>
      reads this`deletedFiles, this`addedFiles
    {
      set f | f in Files(base) + Files(addedFiles) && f.number !in deletedFiles
    }

    ghost predicate Valid()
      reads this
    {
      && Ordered(addedFiles)
      && Files(addedFiles) == Firsts(AllAdded(applied))
      && forall n :: n in deletedFiles <==> !Undeleted(applied, n)
    }

    constructor (base: seq<FileMetaData>)
      ensures Valid() && this.base == base && applied == []
    {
      this.base := base;
      deletedFiles, addedFiles, applied := {}, [], [];
    }

    /** Remember the edit's deletions, then its additions; an added file is no longer deleted. */
    method Apply(edit: LevelEdit)
      requires Valid()
      modifies this
      ensures Valid() && applied == old(applied) + [edit]
      ensures forall n :: n in deletedFiles <==>
                (n in old(deletedFiles) || n in edit.deleted) && n !in Numbers(edit.added)
    {
      hide Ordered, AllAdded, Numbers, Undeleted, Firsts, Files;
      ghost var before := applied;
      deletedFiles := deletedFiles + (set n | n in edit.deleted);
      AddFiles(edit.added, AllAdded(before));
      applied := applied + [edit];
      AddedLast(before, edit);
      forall n ensures n in deletedFiles <==> !Undeleted(applied, n) {
        UndeletedLast(before, edit, n);
      }
    }

    method AddFiles(added: seq<FileMetaData>, ghost all: seq<FileMetaData>)
      requires Ordered(addedFiles) && Files(addedFiles) == Firsts(all)
      modifies this`deletedFiles, this`addedFiles
      ensures Ordered(addedFiles) && Files(addedFiles) == Firsts(all + added)
      ensures forall n :: n in deletedFiles <==> n in old(deletedFiles) && n !in Numbers(added)
    {
      hide Ordered, Numbers, Files, Firsts;
      assert all + added[..0] == all;
      for i := 0 to |added|
        invariant Ordered(addedFiles) && Files(addedFiles) == Firsts(all + added[..i])
        invariant forall n :: n in deletedFiles <==> n in old(deletedFiles) && n !in Numbers(added)[..i]
      {
        AddFile(added[i], all + added[..i]);
        PrefixAppend(Numbers(added), i);
        PrefixAppend(added, i);
        assert all + added[..i + 1] == all + added[..i] + [added[i]];
      }
      WholePrefix(added);
      WholePrefix(Numbers(added));
    }

    method AddFile(f: FileMetaData, ghost all: seq<FileMetaData>)
      requires Ordered(addedFiles) && Files(addedFiles) == Firsts(all)
      modifies this`deletedFiles, this`addedFiles
      ensures Ordered(addedFiles) && Files(addedFiles) == Firsts(all + [f])
      ensures deletedFiles == old(deletedFiles) - {f.number}
    {
      hide Ordered, SamePlace, ComesFirst;
      FirstsAppend(all, f);
      assert Occupied(addedFiles, f) == Occupied(all, f) by {
        if Occupied(all, f) {
          FirstsOccupy(all, f);
          var g :| g in Firsts(all) && SamePlace(g, f);
          assert g in Files(addedFiles);
        }
        if Occupied(addedFiles, f) {
          var g :| g in addedFiles && SamePlace(g, f);
          assert g in Files(addedFiles);
        }
      }
      deletedFiles := deletedFiles - {f.number};
      addedFiles := InsertBySmallest(f, addedFiles);
    }

    lemma SurvivingAreSurvivors()
      requires Valid()
      ensures Surviving() == Survivors(Files(base), applied)
    {
      hide Ordered, AllAdded, Undeleted, Firsts;
    }

    /** Merge base and added files in order, leaving out the deleted ones. */
    method SaveTo() returns (files: seq<FileMetaData>)
      requires Valid() && WeaklyOrdered(base)
      ensures Files(files) == Surviving()
      ensures Saves(base, applied, files)
    {
      hide BySmallestKey, WeaklyOrdered, Merged, Saves, Ordered, AllAdded, Undeleted, Firsts;
      var b := 0;
      files := [];
      MergedNone(deletedFiles, base, addedFiles);
      OrderedIsStrict(addedFiles);
      for a := 0 to |addedFiles|
        invariant 0 <= b <= |base|
        invariant Merged(deletedFiles, files, base, b, addedFiles, a)
      {
        var copied, c := AddBaseFiles(files, b, Some(addedFiles[a]));
        TakeRun(deletedFiles, files, base, b, c, addedFiles, a);
        files := MaybeAddFile(copied, addedFiles[a]);
        NextComesFirst(base, c, addedFiles[a]);
        MergedSwaps(deletedFiles, copied, base, c, addedFiles, a);
        TakeNext(deletedFiles, copied, addedFiles, a, base, c);
        MergedSwaps(deletedFiles, files, base, c, addedFiles, a + 1);
        b := c;
      }
      var all, c := AddBaseFiles(files, b, None);
      TakeRun(deletedFiles, files, base, b, c, addedFiles, |addedFiles|);
      MergeIsSaved(all);
      files := all;
    }

    /** Add the base files from `b` on that do not come after `stop`. */
    method AddBaseFiles(files: seq<FileMetaData>, b: nat, stop: Option<FileMetaData>)
        returns (r: seq<FileMetaData>, c: nat)
      requires b <= |base|
      ensures b <= c <= |base|
      ensures c < |base| ==> stop.Some? && BySmallestKey(stop.value, base[c])
      ensures stop.Some? ==> forall i :: b <= i < c ==> !BySmallestKey(stop.value, base[i])
      ensures r == files + WithoutDeleted(deletedFiles, base[b..c])
    {
      hide BySmallestKey, WithoutDeleted;
      r, c := files, b;
      KeptNone(deletedFiles, base, b);
      while c < |base| && !(stop.Some? && BySmallestKey(stop.value, base[c]))
        invariant b <= c <= |base|
        invariant stop.Some? ==> forall i :: b <= i < c ==> !BySmallestKey(stop.value, base[i])
        invariant r == files + WithoutDeleted(deletedFiles, base[b..c])
      {
        r := MaybeAddFile(r, base[c]);
        SliceAppend(base, b, c);
        KeptLast(deletedFiles, base[b..c], base[c]);
        c := c + 1;
      }
    }

    method MaybeAddFile(files: seq<FileMetaData>, f: FileMetaData) returns (r: seq<FileMetaData>)
      ensures r == if f.number in deletedFiles then files else files + [f]
    {
      r := if f.number in deletedFiles then files else files + [f];
    }

    lemma MergeIsSaved(files: seq<FileMetaData>)
      requires Valid() && Merged(deletedFiles, files, base, |base|, addedFiles, |addedFiles|)
      ensures Files(files) == Surviving() && Saves(base, applied, files)
    {
      hide BySmallestKey, SamePlace, Ordered, WeaklyOrdered, NoneRepeats, AllAdded, Undeleted, Firsts;
      WholePrefix(base);
      WholePrefix(addedFiles);
      SurvivingAreSurvivors();
      OrderedIsStrict(base);
      OrderedIsStrict(addedFiles);
      OrderedIsStrict(files);
      PlacesKept();
    }

    /** Base and added files clash exactly when the edits do not keep places. */
    lemma PlacesKept()
      requires Valid()
      ensures Clash(deletedFiles, base, addedFiles) <==> !KeepsPlaces(base, applied)
    {
      hide Ordered, AllAdded, Undeleted, ComesFirst, SamePlace;
      var all := AllAdded(applied);
      if f, g :| f in base && g in all && SamePlace(f, g) && Undeleted(applied, f.number) {
        PlaceIsShared(f, g);
        FirstsOccupy(all, f);
        var h :| h in Firsts(all) && SamePlace(h, f);
        PlaceIsShared(h, f);
        assert h in Files(addedFiles);
        assert f in NotDeleted(deletedFiles, base) && h in NotDeleted(deletedFiles, addedFiles);
      }
      if f, g :| f in NotDeleted(deletedFiles, base) && g in NotDeleted(deletedFiles, addedFiles) && SamePlace(f, g) {
        assert g in Files(addedFiles);
      }
    }
  }

  /** Recovery: every logged edit goes into one builder, which is saved once. */
  method Recover(base: seq<FileMetaData>, edits: seq<LevelEdit>) returns (files: seq<FileMetaData>)
    requires WeaklyOrdered(base)
    ensures Saves(base, edits, files)
    ensures Files(files) == Replay(Files(base), edits) <==>
              NoneComesBack(Asked, Files(base), edits) && NoneIsShadowed(Asked, Files(base), edits)
    ensures Ordered(base) && NoDoubleAdds(base, edits) ==> Arranges(files, Replay(Files(base), edits))
  {
    hide WeaklyOrdered, Ordered, Survivors, NoDoubleAdds, KeepsPlaces, Replay, NoneComesBack, NoneIsShadowed, Files;
    var builder := new LevelState(base);
    for i := 0 to |edits|
      invariant builder.Valid() && builder.base == base && builder.applied == edits[..i]
    {
      builder.Apply(edits[i]);
      PrefixAppend(edits, i);
    }
    WholePrefix(edits);
    files := builder.SaveTo();
    SurvivorsAreWalked(Asked, Files(base), edits);
    if Ordered(base) && NoDoubleAdds(base, edits) {
      SavedOnce(base, edits, files);
    }
  }

  /** Normal operation: one builder per edit, on top of the current list. */
  method LogAndApply(current: seq<FileMetaData>, edit: LevelEdit) returns (files: seq<FileMetaData>)
    requires WeaklyOrdered(current)
    ensures Saves(current, [edit], files)
    ensures Files(files) == Edited(Files(current), edit) <==>
              && (forall f :: f in current && f.number in edit.deleted && f.number in Numbers(edit.added) ==> f in edit.added)
              && (forall f :: f in edit.added ==> f in current || f in Firsts(edit.added))
    ensures Ordered(current) && NoDoubleAdds(current, [edit]) ==> Arranges(files, Edited(Files(current), edit))
  {
    hide WeaklyOrdered, Ordered, Survivors, NoDoubleAdds, KeepsPlaces, Firsts, NoneComesBack, NoneIsShadowed, Edited;
    files := Recover(current, [edit]);
    ReplayOne(Files(current), edit);
    SavedAsAsked(Files(current), edit);
    assert forall f :: f in current <==> f in Files(current);
  }

  /** Adding a number again diverges: a builder forgets the deletion and keeps the old file `f`,
      which editing step by step has dropped. */
  method DoubleAddKeepsDeletedFile(f: FileMetaData, g: FileMetaData) returns (recovered: seq<FileMetaData>)
    requires f.number == g.number && f != g
    ensures f in recovered
    ensures Replay(Files([f]), [LevelEdit([f.number], []), LevelEdit([], [g])]) == {g}
    ensures LiveFiles(Files([f]), [LevelEdit([f.number], []), LevelEdit([], [g])]) == {g}
  {
    hide BySmallestKey, Less, Sorted;
    var e1, e2 := LevelEdit([f.number], []), LevelEdit([], [g]);
    var builder := new LevelState([f]);
    builder.Apply(e1);
    builder.Apply(e2);
    assert f.number in Numbers(e2.added) by {
      assert Numbers(e2.added)[0] == g.number;
    }
    assert f in Files([f]);
    recovered := builder.SaveTo();
    assert f in Files(recovered);
    TwoSteps(f, g);
  }

  lemma TwoSteps(f: FileMetaData, g: FileMetaData)
    requires f.number == g.number && f != g
    ensures Replay(Files([f]), [LevelEdit([f.number], []), LevelEdit([], [g])]) == {g}
    ensures LiveFiles(Files([f]), [LevelEdit([f.number], []), LevelEdit([], [g])]) == {g}
  {
    hide BySmallestKey, Less, Sorted;
    var e1, e2 := LevelEdit([f.number], []), LevelEdit([], [g]);
    assert [e1, e2][..1] == [e1] && [e1][..0] == [];
    assert Replay(Files([f]), [e1]) == Edited(Replay(Files([f]), []), e1) == {};
    assert Replay(Files([f]), [e1, e2]) == Edited({}, e2);
    SavedAsAsked(Files([f]), e1);
    assert LiveFiles(Files([f]), [e1]) == Survivors(LiveFiles(Files([f]), []), [e1]) == {};
    SavedAsAsked({}, e2);
    StrictAreFirsts([g], g);
    assert LiveFiles(Files([f]), [e1, e2]) == Survivors({}, [e2]);
  }
}
