/** The compaction loop and what it may drop (db/db_impl.cc, db/version_set.cc). */
module Compaction {
  import opened Keys
  import opened Sequences
  import opened Versions

  /** The value a reader gets: a deletion reads as absent. */
  function ValueOf(r: Option<Entry>): Option<Bytes> {
    if r.Some? && r.value.key.kind.Value? then Some(r.value.value) else None
  }

  /** Readers of `user` at `snapshot` get the same from both entry sets. */
  ghost predicate SameRead(es: set<Entry>, es1: set<Entry>, user: UserKey, snapshot: nat) {
    forall r, r1 :: IsNewest(es, user, snapshot, r) && IsNewest(es1, user, snapshot, r1) ==> ValueOf(r) == ValueOf(r1)
  }

  /** No two entries of a user key carry the same sequence number. */
  ghost predicate DistinctSequences(es: set<Entry>) {
    forall a, b :: a in es && b in es && a.key.user == b.key.user && a.key.sequence == b.key.sequence ==> a == b
  }

  ghost function EntrySet(es: seq<Entry>): set<Entry> {
    set e | e in es
  }

  /** Rule (A): the entry before it, of the same user key, is already old enough for every snapshot. */
  predicate HiddenByNewer(input: seq<Entry>, i: nat, smallestSnapshot: nat)
    requires i < |input|
  {
    i > 0 && input[i - 1].key.user == input[i].key.user && input[i - 1].key.sequence <= smallestSnapshot
  }

  /** Rule (B): a deletion every snapshot sees, with nothing below for it to hide. */
  predicate ObsoleteDeletion(input: seq<Entry>, i: nat, smallestSnapshot: nat, base: UserKey -> bool)
    requires i < |input|
  {
    var k := input[i].key;
    k.kind.Deletion? && k.sequence <= smallestSnapshot && base(k.user)
  }

  predicate Dropped(input: seq<Entry>, i: nat, smallestSnapshot: nat, base: UserKey -> bool)
    requires i < |input|
  {
    HiddenByNewer(input, i, smallestSnapshot) || ObsoleteDeletion(input, i, smallestSnapshot, base)
  }

  /** What remains of the first `n` entries. */
  function Kept(input: seq<Entry>, n: nat, smallestSnapshot: nat, base: UserKey -> bool): (r: seq<Entry>)
    requires n <= |input|
    ensures forall e :: e in r <==> exists i :: 0 <= i < n && e == input[i] && !Dropped(input, i, smallestSnapshot, base)
  {
    if n == 0 then []
    else Kept(input, n - 1, smallestSnapshot, base) +
         if Dropped(input, n - 1, smallestSnapshot, base) then [] else [input[n - 1]]
  }

  /** No file two or more levels down covers the user key. */
  predicate IsBase(files: seq<seq<FileMetaData>>, level: nat, user: UserKey) {
    forall l :: level + 2 <= l < |files| ==>
      forall f :: f in files[l] ==> !(f.Smallest().user <= user <= f.Largest().user)
  }

  ghost function BaseAt(files: seq<seq<FileMetaData>>, level: nat): UserKey -> bool {
    user => IsBase(files, level, user)
  }

  /** A running compaction; `levelPtrs` only ever move forward. */
  class CompactionState {
    const level: nat
    const files: seq<seq<FileMetaData>>
    var levelPtrs: seq<nat>
    ghost var asked: Option<UserKey>

    ghost predicate Valid()
      reads this
    {
      && level + 2 <= |files|
      && (forall l :: 1 <= l < |files| ==> SortedLevel(files[l]))
      && |levelPtrs| == |files|
      && forall l :: level + 2 <= l < |files| ==>
           levelPtrs[l] <= |files[l]| && PassedFiles(files[l], levelPtrs[l], asked)
    }

    constructor (level: nat, files: seq<seq<FileMetaData>>)
      requires level + 2 <= |files| && forall l :: 1 <= l < |files| ==> SortedLevel(files[l])
      ensures Valid() && this.level == level && this.files == files && asked == None
    {
      this.level, this.files := level, files;
      levelPtrs := seq(|files|, _ => 0);
      asked := None;
    }

    /** Does no deeper level hold the key? Exact as long as the keys asked about never decrease. */
    method IsBaseLevelForKey(user: UserKey) returns (r: bool)
      requires Valid() && (asked.Some? ==> asked.value <= user)
      modifies this
      ensures Valid() && asked == Some(user)
      ensures r <==> IsBase(files, level, user)
    {
      hide SortedLevel, Sorted, Less;
      asked := Some(user);
      for lvl := level + 2 to |files|
        invariant Valid() && asked == Some(user)
        invariant forall l, f :: level + 2 <= l < lvl && f in files[l] ==> !(f.Smallest().user <= user <= f.Largest().user)
      {
        while levelPtrs[lvl] < |files[lvl]|
          invariant Valid() && asked == Some(user)
          decreases |files[lvl]| - levelPtrs[lvl]
        {
          var f := files[lvl][levelPtrs[lvl]];
          if user <= f.Largest().user {
            if user >= f.Smallest().user {
              assert f in files[lvl];
              return false;
            }
            break;
          }
          PassOne(files[lvl], levelPtrs[lvl], user);
          levelPtrs := levelPtrs[lvl := levelPtrs[lvl] + 1];
        }
        NoneCovers(files[lvl], levelPtrs[lvl], user);
      }
      r := true;
    }

    /** The merge loop: read the inputs in order, drop what no reader can miss, and cut the rest into
        output tables wherever `stopBefore` and `full` (size heuristics) say so. */
    method DoCompactionWork(input: seq<Entry>, smallestSnapshot: nat, stopBefore: nat -> bool, full: nat -> bool)
        returns (outputs: seq<seq<Entry>>, ghost places: seq<seq<nat>>)
      requires Valid() && asked == None
      requires Sorted(input) && smallestSnapshot < MAX_SEQUENCE
      modifies this
      ensures Valid()
      ensures Concat(outputs) == Kept(input, |input|, smallestSnapshot, BaseAt(files, level))
      ensures forall t :: t in outputs ==> t != []
      ensures Places(input, outputs, places) && CutWhereAsked(places, stopBefore, full)
    {
      hide SortedLevel, Sorted, Less, IsBase, PassedFiles, Kept, Concat, CutState, Places, CutWhereAsked;
      outputs, places := [], [];
      var builder: seq<Entry> := [];
      ghost var ps: seq<nat> := [];
      var currentUserKey: Option<UserKey> := None;
      var lastSequenceForKey := MAX_SEQUENCE;
      ghost var base := BaseAt(files, level);
      NothingYet(input, smallestSnapshot, base);
      NothingCut(input, stopBefore, full);
      for i := 0 to |input|
        invariant Valid()
        invariant currentUserKey == if i == 0 then None else Some(input[i - 1].key.user)
        invariant i > 0 ==> lastSequenceForKey == input[i - 1].key.sequence
        invariant asked.Some? ==> currentUserKey.Some? && asked.value <= currentUserKey.value
        invariant Concat(outputs) + builder == Kept(input, i, smallestSnapshot, base)
        invariant forall t :: t in outputs ==> t != []
        invariant CutState(input, outputs, places, builder, ps, i, i, stopBefore, full)
      {
        var ikey := input[i].key;
        if i > 0 {
          UsersNondecreasing(input, i - 1, i);
        }
        ghost var soFar := Concat(outputs) + builder;
        StopAsked(input, outputs, places, builder, ps, i, stopBefore, full);
        if stopBefore(i) && builder != [] {
          outputs := FinishCompactionOutputFile(outputs, builder);
          places := places + [ps];
          builder, ps := [], [];
          assert Concat(outputs) + builder == soFar;
        }
        var drop := false;
        if currentUserKey != Some(ikey.user) {
          currentUserKey := Some(ikey.user);
          lastSequenceForKey := MAX_SEQUENCE;
        }
        if lastSequenceForKey <= smallestSnapshot {
          drop := true;
        } else if ikey.kind.Deletion? && ikey.sequence <= smallestSnapshot {
          drop := IsBaseLevelForKey(ikey.user);
        }
        lastSequenceForKey := ikey.sequence;
        assert drop == Dropped(input, i, smallestSnapshot, base);
        PlaceTaken(input, outputs, places, builder, ps, i, stopBefore, full);
        if !drop {
          builder, ps := builder + [input[i]], ps + [i];
          assert Concat(outputs) + builder == soFar + [input[i]];
          if full(i) {
            outputs := FinishCompactionOutputFile(outputs, builder);
            places := places + [ps];
            builder, ps := [], [];
            assert Concat(outputs) + builder == soFar + [input[i]];
          }
        }
        KeptStep(input, i, smallestSnapshot, base);
      }
      AllCut(input, outputs, places, builder, ps, |input|, stopBefore, full);
      if builder != [] {
        outputs := FinishCompactionOutputFile(outputs, builder);
        places := places + [ps];
      }
    }

    method FinishCompactionOutputFile(outputs: seq<seq<Entry>>, builder: seq<Entry>) returns (r: seq<seq<Entry>>)
      ensures r == outputs + [builder] && Concat(r) == Concat(outputs) + builder
    {
      ConcatAppend(outputs, builder);
      r := outputs + [builder];
    }
  }

  // ----- where outputs are cut -----

  /** Nothing asks for a cut between two entries of the input that are kept. */
  ghost predicate Together(i: nat, j: nat, stopBefore: nat -> bool, full: nat -> bool) {
    !full(i) && forall m :: i < m <= j ==> !stopBefore(m)
  }

  /** The entries of a table and their places in the input. */
  ghost predicate PlacesOf(input: seq<Entry>, table: seq<Entry>, ps: seq<nat>) {
    |ps| == |table| && forall k :: 0 <= k < |ps| ==> ps[k] < |input| && table[k] == input[ps[k]]
  }

  ghost predicate Places(input: seq<Entry>, outputs: seq<seq<Entry>>, places: seq<seq<nat>>) {
    |places| == |outputs| && forall t :: 0 <= t < |places| ==> PlacesOf(input, outputs[t], places[t])
  }

  ghost predicate InOneTable(ps: seq<nat>, stopBefore: nat -> bool, full: nat -> bool) {
    forall a, b :: 0 <= a && b == a + 1 && b < |ps| ==> ps[a] < ps[b] && Together(ps[a], ps[b], stopBefore, full)
  }

  /** Between two kept entries a new table starts exactly when the table was full after the first, or an entry
      behind it asks for a cut in front of it or of a later one up to the second. */
  ghost predicate CutWhereAsked(places: seq<seq<nat>>, stopBefore: nat -> bool, full: nat -> bool) {
    && (forall t :: 0 <= t < |places| ==> places[t] != [] && InOneTable(places[t], stopBefore, full))
    && (forall t, u :: 0 <= t && u == t + 1 && u < |places| ==>
          var last, next := places[t][|places[t]| - 1], places[u][0];
          last < next && !Together(last, next, stopBefore, full))
  }

  /** The state of the loop: `n` entries are handled, and it is known whether the first `seen` ask for a cut. */
  ghost predicate CutState(input: seq<Entry>, outputs: seq<seq<Entry>>, places: seq<seq<nat>>, builder: seq<Entry>, ps: seq<nat>,
                           n: nat, seen: nat, stopBefore: nat -> bool, full: nat -> bool) {
    && Places(input, outputs, places) && CutWhereAsked(places, stopBefore, full)
    && PlacesOf(input, builder, ps) && InOneTable(ps, stopBefore, full) && n <= seen
    && (ps != [] ==> ps[|ps| - 1] < n && Together(ps[|ps| - 1], seen - 1, stopBefore, full))
    && (places != [] ==>
          var table := places[|places| - 1];
          var last := table[|table| - 1];
          && last < n && (ps == [] ==> !Together(last, seen - 1, stopBefore, full))
          && (ps != [] ==> last < ps[0] && !Together(last, ps[0], stopBefore, full)))
  }

  lemma NothingCut(input: seq<Entry>, stopBefore: nat -> bool, full: nat -> bool)
    ensures CutState(input, [], [], [], [], 0, 0, stopBefore, full)
  {
  }

  lemma StopAsked(input: seq<Entry>, outputs: seq<seq<Entry>>, places: seq<seq<nat>>, builder: seq<Entry>, ps: seq<nat>,
                  i: nat, stopBefore: nat -> bool, full: nat -> bool)
    requires CutState(input, outputs, places, builder, ps, i, i, stopBefore, full)
    ensures if stopBefore(i) && builder != []
            then CutState(input, outputs + [builder], places + [ps], [], [], i, i + 1, stopBefore, full)
            else CutState(input, outputs, places, builder, ps, i, i + 1, stopBefore, full)
  {
    hide Places, CutWhereAsked;
    if stopBefore(i) && builder != [] {
      TableEnds(input, outputs, places, builder, ps, stopBefore, full);
    }
  }

  lemma TableEnds(input: seq<Entry>, outputs: seq<seq<Entry>>, places: seq<seq<nat>>, builder: seq<Entry>, ps: seq<nat>,
                  stopBefore: nat -> bool, full: nat -> bool)
    requires Places(input, outputs, places) && CutWhereAsked(places, stopBefore, full)
    requires PlacesOf(input, builder, ps) && InOneTable(ps, stopBefore, full) && ps != []
    requires places != [] ==>
               var table := places[|places| - 1];
               table[|table| - 1] < ps[0] && !Together(table[|table| - 1], ps[0], stopBefore, full)
    ensures Places(input, outputs + [builder], places + [ps]) && CutWhereAsked(places + [ps], stopBefore, full)
  {
    hide PlacesOf, InOneTable, Together;
  }

  lemma PlaceTaken(input: seq<Entry>, outputs: seq<seq<Entry>>, places: seq<seq<nat>>, builder: seq<Entry>, ps: seq<nat>,
                   i: nat, stopBefore: nat -> bool, full: nat -> bool)
    requires CutState(input, outputs, places, builder, ps, i, i + 1, stopBefore, full) && i < |input|
    ensures CutState(input, outputs, places, builder, ps, i + 1, i + 1, stopBefore, full)
    ensures var builder1, ps1 := builder + [input[i]], ps + [i];
            if full(i) then CutState(input, outputs + [builder1], places + [ps1], [], [], i + 1, i + 1, stopBefore, full)
            else CutState(input, outputs, places, builder1, ps1, i + 1, i + 1, stopBefore, full)
  {
    hide Places, CutWhereAsked;
    var builder1, ps1 := builder + [input[i]], ps + [i];
    assert PlacesOf(input, builder1, ps1);
    assert InOneTable(ps1, stopBefore, full) by {
      hide Together;
    }
    if full(i) {
      TableEnds(input, outputs, places, builder1, ps1, stopBefore, full);
    }
  }

  lemma AllCut(input: seq<Entry>, outputs: seq<seq<Entry>>, places: seq<seq<nat>>, builder: seq<Entry>, ps: seq<nat>,
               n: nat, stopBefore: nat -> bool, full: nat -> bool)
    requires CutState(input, outputs, places, builder, ps, n, n, stopBefore, full)
    ensures Places(input, outputs, places) && CutWhereAsked(places, stopBefore, full)
    ensures builder != [] ==>
              Places(input, outputs + [builder], places + [ps]) && CutWhereAsked(places + [ps], stopBefore, full)
  {
    hide Places, CutWhereAsked, InOneTable, Together;
    if builder != [] {
      TableEnds(input, outputs, places, builder, ps, stopBefore, full);
    }
  }

  lemma NothingYet(input: seq<Entry>, smallestSnapshot: nat, base: UserKey -> bool)
    ensures Kept(input, 0, smallestSnapshot, base) == [] && Concat<Entry>([]) == []
  {
  }

  lemma KeptStep(input: seq<Entry>, n: nat, smallestSnapshot: nat, base: UserKey -> bool)
    requires n < |input|
    ensures Kept(input, n + 1, smallestSnapshot, base) == Kept(input, n, smallestSnapshot, base) +
              if Dropped(input, n, smallestSnapshot, base) then [] else [input[n]]
  {
  }

  lemma UsersNondecreasing(input: seq<Entry>, i: nat, j: nat)
    requires Sorted(input) && i <= j < |input|
    ensures input[i].key.user <= input[j].key.user
  {
  }

  /** The files before the pointer end before every key still to come. */
  ghost predicate PassedFiles(files: seq<FileMetaData>, n: nat, asked: Option<UserKey>)
    requires n <= |files|
  {
    forall i :: 0 <= i < n ==> asked.Some? && files[i].Largest().user < asked.value
  }

  lemma PassOne(files: seq<FileMetaData>, n: nat, user: UserKey)
    requires n < |files| && PassedFiles(files, n, Some(user)) && files[n].Largest().user < user
    ensures PassedFiles(files, n + 1, Some(user))
  {
  }

  lemma NoneCovers(files: seq<FileMetaData>, n: nat, user: UserKey)
    requires SortedLevel(files) && n <= |files| && PassedFiles(files, n, Some(user))
    requires n < |files| ==> user < files[n].Smallest().user
    ensures forall f :: f in files ==> !(f.Smallest().user <= user <= f.Largest().user)
  {
    forall i | n < i < |files| ensures user < files[i].Smallest().user {
      WithinFile(files[n], files[n].entries[0]);
    }
  }

  /** `below` holds only older data for the user keys of `above`. */
  ghost predicate Below(above: set<Entry>, below: set<Entry>) {
    forall x, y :: x in above && y in below && x.key.user == y.key.user ==> Less(x.key, y.key)
  }

  ghost function KeptSet(input: seq<Entry>, smallestSnapshot: nat, base: UserKey -> bool): set<Entry> {
    EntrySet(Kept(input, |input|, smallestSnapshot, base))
  }

  /** The one way a compaction can change a read: it drops the deletion that is the newest old entry
      of `user` while the newest entry that stays underneath is a value. */
  ghost predicate Resurrects(input: seq<Entry>, smallestSnapshot: nat, base: UserKey -> bool, rest: set<Entry>,
                             user: UserKey) {
    exists d, v ::
      && IsNewest(EntrySet(input), user, smallestSnapshot, Some(d)) && d.key.kind.Deletion? && base(user)
      && IsNewest(rest, user, smallestSnapshot, Some(v)) && v.key.kind.Value?
  }

  /** Index of an entry no reader at `snapshot` prefers another to: rule (A) leaves it alone. */
  lemma NewestNotHidden(input: seq<Entry>, user: UserKey, snapshot: nat, smallestSnapshot: nat, n: Entry)
      returns (i: nat)
    requires Sorted(input) && DistinctSequences(EntrySet(input)) && smallestSnapshot <= snapshot
    requires IsNewest(EntrySet(input), user, snapshot, Some(n))
    ensures i < |input| && input[i] == n && !HiddenByNewer(input, i, smallestSnapshot)
  {
    i :| 0 <= i < |input| && input[i] == n;
    if i > 0 {
      assert input[i - 1] in EntrySet(input);
      assert Less(input[i - 1].key, input[i].key);
    }
  }

  /** Everything of the same user key after an old enough entry is dropped. */
  lemma OlderIsDropped(input: seq<Entry>, i: nat, j: nat, smallestSnapshot: nat, base: UserKey -> bool)
    requires Sorted(input) && i < j < |input|
    requires input[i].key.user == input[j].key.user && input[i].key.sequence <= smallestSnapshot
    ensures Dropped(input, j, smallestSnapshot, base)
  {
    UsersNondecreasing(input, i, j - 1);
    UsersNondecreasing(input, j - 1, j);
    assert i < j - 1 ==> Less(input[i].key, input[j - 1].key);
  }

  /** What is kept, said of the entries alone: neither an entry under a newer one of its user key that every
      snapshot sees, nor a deletion that every snapshot sees and that has nothing below it to hide. */
  lemma KeptExactly(input: seq<Entry>, smallestSnapshot: nat, base: UserKey -> bool, e: Entry)
    requires Sorted(input)
    ensures e in KeptSet(input, smallestSnapshot, base)
       <==> e in input && !OldUnder(input, smallestSnapshot, e)
            && !(e.key.kind.Deletion? && e.key.sequence <= smallestSnapshot && base(e.key.user))
  {
    hide Sorted, Less;
    forall i | 0 <= i < |input| ensures HiddenByNewer(input, i, smallestSnapshot) <==> OldUnder(input, smallestSnapshot, input[i]) {
      HiddenMeansOld(input, i, smallestSnapshot);
    }
  }

  /** A newer entry of the user key is old enough for every snapshot. */
  ghost predicate OldUnder(input: seq<Entry>, smallestSnapshot: nat, e: Entry) {
    exists n :: n in input && n.key.user == e.key.user && n.key.sequence <= smallestSnapshot && Less(n.key, e.key)
  }

  lemma LessIsBefore(input: seq<Entry>, j: nat, i: nat)
    requires Sorted(input) && j < |input| && i < |input| && Less(input[j].key, input[i].key)
    ensures j < i
  {
  }

  lemma HiddenMeansOld(input: seq<Entry>, i: nat, smallestSnapshot: nat)
    requires Sorted(input) && i < |input|
    ensures HiddenByNewer(input, i, smallestSnapshot) <==> OldUnder(input, smallestSnapshot, input[i])
  {
    if OldUnder(input, smallestSnapshot, input[i]) {
      var n :| n in input && n.key.user == input[i].key.user && n.key.sequence <= smallestSnapshot && Less(n.key, input[i].key);
      var j :| 0 <= j < |input| && input[j] == n;
      LessIsBefore(input, j, i);
      UsersNondecreasing(input, j, i - 1);
      UsersNondecreasing(input, i - 1, i);
      assert j < i - 1 ==> Less(n.key, input[i - 1].key);
    }
  }

  /** A kept entry of the same user key as a dropped old one comes before it. */
  lemma KeptComesBefore(input: seq<Entry>, i: nat, smallestSnapshot: nat, base: UserKey -> bool, e: Entry)
    requires Sorted(input) && i < |input| && Dropped(input, i, smallestSnapshot, base)
    requires input[i].key.sequence <= smallestSnapshot
    requires e in KeptSet(input, smallestSnapshot, base) && e.key.user == input[i].key.user
    ensures Less(e.key, input[i].key) && e in EntrySet(input)
  {
    var j :| 0 <= j < |input| && e == input[j] && !Dropped(input, j, smallestSnapshot, base);
    if i < j {
      OlderIsDropped(input, i, j, smallestSnapshot, base);
    }
  }

  /** Without resurrection no reader at or after the smallest snapshot notices the compaction. */
  lemma DropRulePreservesReads(input: seq<Entry>, smallestSnapshot: nat, base: UserKey -> bool, rest: set<Entry>,
                               user: UserKey, snapshot: nat)
    requires Sorted(input) && DistinctSequences(EntrySet(input) + rest) && Below(EntrySet(input), rest)
    requires smallestSnapshot <= snapshot
    requires !Resurrects(input, smallestSnapshot, base, rest, user)
    ensures SameRead(EntrySet(input) + rest, KeptSet(input, smallestSnapshot, base) + rest, user, snapshot)
  {
    var all, left := EntrySet(input) + rest, KeptSet(input, smallestSnapshot, base) + rest;
    forall r, r1 | IsNewest(all, user, snapshot, r) && IsNewest(left, user, snapshot, r1)
      ensures ValueOf(r) == ValueOf(r1)
    {
      if r.Some? {
        var n := r.value;
        if n in left {
          assert r1 == r;
        } else {
          var i := NewestNotHidden(input, user, snapshot, smallestSnapshot, n);
          assert Dropped(input, i, smallestSnapshot, base);
          if r1.Some? && r1.value.key.kind.Value? {
            DroppedHidesNothing(input, smallestSnapshot, base, rest, user, snapshot, i, r1.value);
          }
        }
      }
    }
  }

  lemma DroppedNow(input: seq<Entry>, i: nat, smallestSnapshot: nat, base: UserKey -> bool)
    requires i < |input| && ObsoleteDeletion(input, i, smallestSnapshot, base)
    ensures Dropped(input, i, smallestSnapshot, base)
  {
  }

  /** The contradiction behind the previous lemma: a value cannot surface from under a dropped entry. */
  lemma DroppedHidesNothing(input: seq<Entry>, smallestSnapshot: nat, base: UserKey -> bool, rest: set<Entry>,
                            user: UserKey, snapshot: nat, i: nat, x: Entry)
    requires Sorted(input) && DistinctSequences(EntrySet(input) + rest) && smallestSnapshot <= snapshot
    requires i < |input| && ObsoleteDeletion(input, i, smallestSnapshot, base)
    requires IsNewest(EntrySet(input) + rest, user, snapshot, Some(input[i]))
    requires IsNewest(KeptSet(input, smallestSnapshot, base) + rest, user, snapshot, Some(x)) && x.key.kind.Value?
    ensures Resurrects(input, smallestSnapshot, base, rest, user)
  {
    hide Kept, Dropped, Sorted;
    if x in KeptSet(input, smallestSnapshot, base) {
      DroppedNow(input, i, smallestSnapshot, base);
      KeptComesBefore(input, i, smallestSnapshot, base, x);
    }
    assert IsNewest(EntrySet(input), user, smallestSnapshot, Some(input[i])) by {
      assert input[i] in EntrySet(input);
    }
    assert IsNewest(rest, user, smallestSnapshot, Some(x));
  }

  /** And with it one does: the condition is exact. */
  lemma ResurrectionChangesRead(input: seq<Entry>, smallestSnapshot: nat, base: UserKey -> bool, rest: set<Entry>,
                                user: UserKey)
    requires Sorted(input) && DistinctSequences(EntrySet(input) + rest) && Below(EntrySet(input), rest)
    requires Resurrects(input, smallestSnapshot, base, rest, user)
    ensures !SameRead(EntrySet(input) + rest, KeptSet(input, smallestSnapshot, base) + rest, user, smallestSnapshot)
  {
    hide Kept, Dropped, Sorted;
    var d, v :| IsNewest(EntrySet(input), user, smallestSnapshot, Some(d)) && d.key.kind.Deletion? && base(user)
      && IsNewest(rest, user, smallestSnapshot, Some(v)) && v.key.kind.Value?;
    var all, left := EntrySet(input) + rest, KeptSet(input, smallestSnapshot, base) + rest;
    var i :| 0 <= i < |input| && input[i] == d;
    DroppedNow(input, i, smallestSnapshot, base);
    forall e | e in KeptSet(input, smallestSnapshot, base) ensures !Visible(e, user, smallestSnapshot) {
      if Visible(e, user, smallestSnapshot) {
        KeptComesBefore(input, i, smallestSnapshot, base, e);
      }
    }
    assert v in rest && Less(d.key, v.key);
    forall e | e in rest ensures Visible(e, user, smallestSnapshot) ==> e.key.sequence <= d.key.sequence {
    }
    assert IsNewest(all, user, smallestSnapshot, Some(d));
    assert IsNewest(left, user, smallestSnapshot, Some(v));
  }

  /** The drop rule is safe for a user key exactly when it does not resurrect it. */
  lemma DropRuleExact(input: seq<Entry>, smallestSnapshot: nat, base: UserKey -> bool, rest: set<Entry>, user: UserKey)
    requires Sorted(input) && DistinctSequences(EntrySet(input) + rest) && Below(EntrySet(input), rest)
    ensures (forall s :: s >= smallestSnapshot ==>
               SameRead(EntrySet(input) + rest, KeptSet(input, smallestSnapshot, base) + rest, user, s))
            <==> !Resurrects(input, smallestSnapshot, base, rest, user)
  {
    if Resurrects(input, smallestSnapshot, base, rest, user) {
      ResurrectionChangesRead(input, smallestSnapshot, base, rest, user);
    } else {
      forall s | s >= smallestSnapshot
        ensures SameRead(EntrySet(input) + rest, KeptSet(input, smallestSnapshot, base) + rest, user, s)
      {
        DropRulePreservesReads(input, smallestSnapshot, base, rest, user, s);
      }
    }
  }

  /** Newer data on top of two stacks that read alike leaves them reading alike. */
  lemma ReadsUnderNewerData(top: set<Entry>, es: set<Entry>, es1: set<Entry>, user: UserKey, snapshot: nat)
    requires DistinctSequences(top + es) && Below(top, es) && es1 <= es
    requires SameRead(es, es1, user, snapshot)
    ensures SameRead(top + es, top + es1, user, snapshot)
  {
    forall r, r1 | IsNewest(top + es, user, snapshot, r) && IsNewest(top + es1, user, snapshot, r1)
      ensures ValueOf(r) == ValueOf(r1)
    {
      if r.Some? && r.value in top {
        assert r1 == r;
      } else if r.Some? {
        forall x | x in top ensures !Visible(x, user, snapshot) {
          assert x.key.user == user ==> Less(x.key, r.value.key);
        }
        assert IsNewest(es, user, snapshot, r);
        assert IsNewest(es1, user, snapshot, r1);
      }
    }
  }

  /** Readers of `user` at or after the smallest snapshot get the same from both entry sets. */
  ghost predicate UserReadsStay(es: set<Entry>, es1: set<Entry>, user: UserKey, smallestSnapshot: nat) {
    forall s :: s >= smallestSnapshot ==> SameRead(es, es1, user, s)
  }

  ghost predicate Seen(es: set<Entry>, user: UserKey, snapshot: nat) {
    exists e :: e in es && Visible(e, user, snapshot)
  }

  /** A reader who sees newer data does not see what lies under it. */
  lemma SeenHides(top: set<Entry>, es: set<Entry>, es1: set<Entry>, user: UserKey, snapshot: nat)
    requires DistinctSequences(top + es) && Below(top, es) && es1 <= es && Seen(top, user, snapshot)
    ensures SameRead(top + es, top + es1, user, snapshot)
  {
    var x :| x in top && Visible(x, user, snapshot);
    forall r, r1 | IsNewest(top + es, user, snapshot, r) && IsNewest(top + es1, user, snapshot, r1)
      ensures ValueOf(r) == ValueOf(r1)
    {
      assert x in top + es && x in top + es1;
      assert r.Some? && r1.Some?;
      assert r.value in es ==> Less(x.key, r.value.key);
    }
  }

  lemma UnseenHidesNothing(top: set<Entry>, es: set<Entry>, es1: set<Entry>, user: UserKey, snapshot: nat)
    requires !Seen(top, user, snapshot)
    ensures SameRead(top + es, top + es1, user, snapshot) <==> SameRead(es, es1, user, snapshot)
  {
    forall r ensures IsNewest(top + es, user, snapshot, r) <==> IsNewest(es, user, snapshot, r) {
    }
    forall r ensures IsNewest(top + es1, user, snapshot, r) <==> IsNewest(es1, user, snapshot, r) {
    }
  }
}
