/** Choosing the inputs of a compaction and the level of a flushed table (db/version_set.cc). */
module Inputs {
  import opened Keys
  import opened Sequences
  import opened Versions

  /** The files that meet the user-key range, in list order. */
  function Overlapping(files: seq<FileMetaData>, lo: Option<UserKey>, hi: Option<UserKey>): (r: seq<FileMetaData>)
    ensures forall f :: f in r <==> f in files && Overlaps(f, lo, hi)
    ensures |r| <= |files|
  {
    if files == [] then []
    else
      var n := |files| - 1;
      assert forall f :: f in files <==> f in files[..n] || f == files[n];
      Overlapping(files[..n], lo, hi) + if Overlaps(files[n], lo, hi) then [files[n]] else []
  }

  /** [lo, hi] contains [lo1, hi1]; a missing bound is infinite. */
  ghost predicate Contains(lo: Option<UserKey>, hi: Option<UserKey>, lo1: Option<UserKey>, hi1: Option<UserKey>) {
    && (lo.Some? ==> lo1.Some? && lo.value <= lo1.value)
    && (hi.Some? ==> hi1.Some? && hi1.value <= hi.value)
  }

  /** Every file that meets the range lies inside it. */
  ghost predicate ClosedRange(files: seq<FileMetaData>, lo: Option<UserKey>, hi: Option<UserKey>) {
    forall f :: f in files && Overlaps(f, lo, hi) ==>
      Contains(lo, hi, Some(f.Smallest().user), Some(f.Largest().user))
  }

  /** Every closed range that contains the requested one contains [lo, hi] as well. */
  ghost predicate Forced(files: seq<FileMetaData>, lo0: Option<UserKey>, hi0: Option<UserKey>,
                         lo: Option<UserKey>, hi: Option<UserKey>) {
    forall l, h :: ClosedRange(files, l, h) && Contains(l, h, lo0, hi0) ==> Contains(l, h, lo, hi)
  }

  /** [lo, hi] is the least closed range that contains the requested one. */
  ghost predicate LeastClosed(files: seq<FileMetaData>, lo0: Option<UserKey>, hi0: Option<UserKey>,
                              lo: Option<UserKey>, hi: Option<UserKey>) {
    Contains(lo, hi, lo0, hi0) && ClosedRange(files, lo, hi) && Forced(files, lo0, hi0, lo, hi)
  }

  /** A file that meets the range and sticks out of it forces the range to grow. */
  lemma GrowthIsForced(files: seq<FileMetaData>, lo0: Option<UserKey>, hi0: Option<UserKey>,
                       lo: Option<UserKey>, hi: Option<UserKey>, f: FileMetaData)
    requires Forced(files, lo0, hi0, lo, hi) && f in files && Overlaps(f, lo, hi)
    ensures lo.Some? && f.Smallest().user < lo.value ==> Forced(files, lo0, hi0, Some(f.Smallest().user), hi)
    ensures hi.Some? && f.Largest().user > hi.value ==> Forced(files, lo0, hi0, lo, Some(f.Largest().user))
  {
    forall l, h | ClosedRange(files, l, h) && Contains(l, h, lo0, hi0)
      ensures Contains(l, h, Some(f.Smallest().user), Some(f.Largest().user))
    {
      assert Contains(l, h, lo, hi);
      assert Overlaps(f, l, h);
    }
  }

  lemma ClosedAppend(files: seq<FileMetaData>, f: FileMetaData, lo: Option<UserKey>, hi: Option<UserKey>)
    requires ClosedRange(files, lo, hi)
    requires Overlaps(f, lo, hi) ==> Contains(lo, hi, Some(f.Smallest().user), Some(f.Largest().user))
    ensures ClosedRange(files + [f], lo, hi)
  {
  }

  lemma OverlappingAppend(files: seq<FileMetaData>, f: FileMetaData, lo: Option<UserKey>, hi: Option<UserKey>)
    ensures Overlapping(files + [f], lo, hi) ==
            Overlapping(files, lo, hi) + if Overlaps(f, lo, hi) then [f] else []
  {
    assert (files + [f])[..|files|] == files;
  }

  function StartsBelow(files: seq<FileMetaData>, lo: Option<UserKey>): nat {
    if files == [] then 0
    else StartsBelow(files[1..], lo) + if lo.Some? && files[0].Smallest().user < lo.value then 1 else 0
  }

  function EndsAbove(files: seq<FileMetaData>, hi: Option<UserKey>): nat {
    if files == [] then 0
    else EndsAbove(files[1..], hi) + if hi.Some? && files[0].Largest().user > hi.value then 1 else 0
  }

  lemma {:induction false} StartsBelowDrops(files: seq<FileMetaData>, lo: UserKey, lo1: UserKey)
    requires lo1 <= lo
    ensures StartsBelow(files, Some(lo1)) <= StartsBelow(files, Some(lo))
    ensures (exists f :: f in files && lo1 <= f.Smallest().user < lo) ==>
              StartsBelow(files, Some(lo1)) < StartsBelow(files, Some(lo))
  {
    if files != [] {
      StartsBelowDrops(files[1..], lo, lo1);
      assert forall f :: f in files <==> f == files[0] || f in files[1..];
    }
  }

  lemma {:induction false} EndsAboveDrops(files: seq<FileMetaData>, hi: UserKey, hi1: UserKey)
    requires hi <= hi1
    ensures EndsAbove(files, Some(hi1)) <= EndsAbove(files, Some(hi))
    ensures (exists f :: f in files && hi < f.Largest().user <= hi1) ==>
              EndsAbove(files, Some(hi1)) < EndsAbove(files, Some(hi))
  {
    if files != [] {
      EndsAboveDrops(files[1..], hi, hi1);
      assert forall f :: f in files <==> f == files[0] || f in files[1..];
    }
  }

  /** The files of a level that meet [begin, end]. Files of level 0 may overlap each other, so there
      a file that sticks out widens the range and restarts the search; the result is the set of
      files meeting the least range that is closed under overlap. */
  method GetOverlappingInputs(level: nat, files: seq<FileMetaData>, begin: Option<InternalKey>,
                              end: Option<InternalKey>)
      returns (inputs: seq<FileMetaData>, ghost lo: Option<UserKey>, ghost hi: Option<UserKey>)
    ensures inputs == Overlapping(files, lo, hi)
    ensures level > 0 ==> lo == UserOf(begin) && hi == UserOf(end)
    ensures level == 0 ==> LeastClosed(files, UserOf(begin), UserOf(end), lo, hi)
    ensures level > 0 ==> inputs == Overlapping(files, UserOf(begin), UserOf(end))
    ensures level == 0 ==> exists l, h :: LeastClosed(files, UserOf(begin), UserOf(end), l, h) && inputs == Overlapping(files, l, h)
  {
    hide ClosedRange, Forced, Less, Sorted, Overlapping, StartsBelow, EndsAbove, LeastClosed;
    var userBegin, userEnd := UserOf(begin), UserOf(end);
    inputs := [];
    var i := 0;
    SearchStarts(files, userBegin, userEnd, userBegin, userEnd);
    while i < |files|
      invariant 0 <= i <= |files|
      invariant inputs == Overlapping(files[..i], userBegin, userEnd)
      invariant level > 0 ==> userBegin == UserOf(begin) && userEnd == UserOf(end)
      invariant userBegin.Some? == begin.Some? && userEnd.Some? == end.Some?
      invariant level == 0 ==> Contains(userBegin, userEnd, UserOf(begin), UserOf(end))
      invariant level == 0 ==> ClosedRange(files[..i], userBegin, userEnd)
      invariant level == 0 ==> Forced(files, UserOf(begin), UserOf(end), userBegin, userEnd)
      decreases StartsBelow(files, userBegin), EndsAbove(files, userEnd), |files| - i
    {
      var f := files[i];
      PrefixAppend(files, i);
      OverlappingAppend(files[..i], f, userBegin, userEnd);
      var start, limit := f.Smallest().user, f.Largest().user;
      var skip := (begin.Some? && limit < userBegin.value) || (end.Some? && start > userEnd.value);
      if !skip && level == 0 && begin.Some? && start < userBegin.value {
        StartsBelowDrops(files, userBegin.value, start);
        GrowthIsForced(files, UserOf(begin), UserOf(end), userBegin, userEnd, f);
        userBegin := Some(start);
        SearchStarts(files, UserOf(begin), UserOf(end), userBegin, userEnd);
        inputs, i := [], 0;
      } else if !skip && level == 0 && end.Some? && limit > userEnd.value {
        EndsAboveDrops(files, userEnd.value, limit);
        GrowthIsForced(files, UserOf(begin), UserOf(end), userBegin, userEnd, f);
        userEnd := Some(limit);
        SearchStarts(files, UserOf(begin), UserOf(end), userBegin, userEnd);
        inputs, i := [], 0;
      } else {
        if level == 0 {
          ClosedAppend(files[..i], f, userBegin, userEnd);
        }
        if !skip {
          inputs := inputs + [f];
        }
        i := i + 1;
      }
    }
    WholePrefix(files);
    LeastFromParts(files, UserOf(begin), UserOf(end), userBegin, userEnd);
    lo, hi := userBegin, userEnd;
  }

  lemma SearchStarts(files: seq<FileMetaData>, lo0: Option<UserKey>, hi0: Option<UserKey>,
                     lo: Option<UserKey>, hi: Option<UserKey>)
    ensures files[..0] == [] && ClosedRange(files[..0], lo, hi) && Overlapping(files[..0], lo, hi) == []
    ensures Forced(files, lo0, hi0, lo0, hi0)
  {
  }

  lemma LeastFromParts(files: seq<FileMetaData>, lo0: Option<UserKey>, hi0: Option<UserKey>,
                       lo: Option<UserKey>, hi: Option<UserKey>)
    ensures Contains(lo, hi, lo0, hi0) && ClosedRange(files, lo, hi) && Forced(files, lo0, hi0, lo, hi) ==>
              LeastClosed(files, lo0, hi0, lo, hi)
  {
  }

  function UserOf(k: Option<InternalKey>): Option<UserKey> {
    if k.Some? then Some(k.value.user) else None
  }

  /** Smallest and largest key of a nonempty list of files. */
  method GetRange(inputs: seq<FileMetaData>) returns (smallest: InternalKey, largest: InternalKey)
    requires inputs != []
    ensures exists f :: f in inputs && f.Smallest() == smallest
    ensures exists f :: f in inputs && f.Largest() == largest
    ensures forall f :: f in inputs ==> !Less(f.Smallest(), smallest) && !Less(largest, f.Largest())
  {
    smallest, largest := inputs[0].Smallest(), inputs[0].Largest();
    for i := 1 to |inputs|
      invariant exists f :: f in inputs && f.Smallest() == smallest
      invariant exists f :: f in inputs && f.Largest() == largest
      invariant forall j :: 0 <= j < i ==> !Less(inputs[j].Smallest(), smallest) && !Less(largest, inputs[j].Largest())
    {
      if Less(inputs[i].Smallest(), smallest) {
        smallest := inputs[i].Smallest();
      }
      if Less(largest, inputs[i].Largest()) {
        largest := inputs[i].Largest();
      }
    }
  }

  /** `g` continues the user key at which `largest` ended. */
  predicate Continues(g: FileMetaData, largest: InternalKey) {
    Less(largest, g.Smallest()) && g.Smallest().user == largest.user
  }

  /** The boundary file with the smallest first key, if there is one. */
  method FindSmallestBoundaryFile(levelFiles: seq<FileMetaData>, largest: InternalKey)
      returns (r: Option<FileMetaData>)
    ensures r.Some? ==> r.value in levelFiles && Continues(r.value, largest)
    ensures r.Some? ==> FirstToContinue(levelFiles, largest, r.value)
    ensures r.None? ==> forall g :: g in levelFiles ==> !Continues(g, largest)
  {
    r := None;
    for i := 0 to |levelFiles|
      invariant r.Some? ==> r.value in levelFiles && Continues(r.value, largest)
      invariant r.Some? ==>
        forall j :: 0 <= j < i && Continues(levelFiles[j], largest) ==> !Less(levelFiles[j].Smallest(), r.value.Smallest())
      invariant r.None? ==> forall j :: 0 <= j < i ==> !Continues(levelFiles[j], largest)
    {
      if Continues(levelFiles[i], largest) {
        if r.None? || Less(levelFiles[i].Smallest(), r.value.Smallest()) {
          r := Some(levelFiles[i]);
        }
      }
    }
  }

  function StartsAfter(files: seq<FileMetaData>, key: InternalKey): nat {
    if files == [] then 0 else StartsAfter(files[1..], key) + if Less(key, files[0].Smallest()) then 1 else 0
  }

  lemma {:induction false} StartsAfterDrops(files: seq<FileMetaData>, key: InternalKey, key1: InternalKey)
    requires !Less(key1, key)
    ensures StartsAfter(files, key1) <= StartsAfter(files, key)
    ensures (exists f :: f in files && Less(key, f.Smallest()) && !Less(key1, f.Smallest())) ==>
              StartsAfter(files, key1) < StartsAfter(files, key)
  {
    if files != [] {
      StartsAfterDrops(files[1..], key, key1);
      assert forall f :: f in files <==> f == files[0] || f in files[1..];
    }
  }

  /** The last key before the `i`-th added file. */
  function EndBefore(largest: InternalKey, added: seq<FileMetaData>, i: nat): InternalKey
    requires i <= |added|
  {
    if i == 0 then largest else added[i - 1].Largest()
  }

  /** Each added file starts with the user key at which the files before it end, and is the first of
      the level to do so. */
  ghost predicate BoundaryChain(levelFiles: seq<FileMetaData>, largest: InternalKey, added: seq<FileMetaData>) {
    forall i :: 0 <= i < |added| ==>
      && added[i] in levelFiles && Continues(added[i], EndBefore(largest, added, i))
      && FirstToContinue(levelFiles, EndBefore(largest, added, i), added[i])
  }

  ghost predicate FirstToContinue(levelFiles: seq<FileMetaData>, largest: InternalKey, f: FileMetaData) {
    forall g :: g in levelFiles && Continues(g, largest) ==> !Less(g.Smallest(), f.Smallest())
  }

  ghost predicate NoneContinues(levelFiles: seq<FileMetaData>, largest: InternalKey) {
    forall g :: g in levelFiles ==> !Continues(g, largest)
  }

  /** Add boundary files until no file of the level continues the last user key. */
  method AddBoundaryInputs(levelFiles: seq<FileMetaData>, files: seq<FileMetaData>)
      returns (r: seq<FileMetaData>, ghost largest: InternalKey, ghost added: seq<FileMetaData>)
    ensures r == files + added
    ensures files == [] ==> added == []
    ensures files != [] ==>
      && (exists f :: f in files && f.Largest() == largest)
      && (forall f :: f in files ==> !Less(largest, f.Largest()))
      && BoundaryChain(levelFiles, largest, added)
      && forall g :: g in levelFiles ==> !Continues(g, EndBefore(largest, added, |added|))
    ensures files <= r
    ensures files != [] ==> exists f :: f in r && NoneContinues(levelFiles, f.Largest())
  {
    hide Less, Sorted, BoundaryChain, FirstToContinue, Continues;
    r, added := files, [];
    if files == [] {
      largest := InternalKey(0.0, 0, Value);
      return;
    }
    var s, largestKey := GetRange(files);
    largest := largestKey;
    NoneAdded(levelFiles, largest);
    ghost var last :| last in files && last.Largest() == largest;
    var searching := true;
    while searching
      invariant r == files + added
      invariant largestKey == EndBefore(largest, added, |added|)
      invariant BoundaryChain(levelFiles, largest, added)
      invariant last in r && last.Largest() == largestKey
      invariant !searching ==> forall g :: g in levelFiles ==> !Continues(g, largestKey)
      decreases StartsAfter(levelFiles, largestKey), if searching then 1 else 0
    {
      var boundary := FindSmallestBoundaryFile(levelFiles, largestKey);
      if boundary.Some? {
        var f := boundary.value;
        ContinuesGrows(f, largestKey);
        StartsAfterDrops(levelFiles, largestKey, f.Largest());
        ChainAppend(levelFiles, largest, added, f);
        r := r + [f];
        added := added + [f];
        largestKey := f.Largest();
        last := f;
      } else {
        searching := false;
      }
    }
  }

  lemma NoneAdded(levelFiles: seq<FileMetaData>, largest: InternalKey)
    ensures BoundaryChain(levelFiles, largest, [])
  {
  }

  lemma ChainAppend(levelFiles: seq<FileMetaData>, largest: InternalKey, added: seq<FileMetaData>, f: FileMetaData)
    requires BoundaryChain(levelFiles, largest, added)
    requires f in levelFiles && Continues(f, EndBefore(largest, added, |added|))
    requires FirstToContinue(levelFiles, EndBefore(largest, added, |added|), f)
    ensures BoundaryChain(levelFiles, largest, added + [f])
    ensures EndBefore(largest, added + [f], |added| + 1) == f.Largest()
  {
    hide Less, Sorted, Continues, FirstToContinue;
    assert forall i :: 0 <= i <= |added| ==> EndBefore(largest, added + [f], i) == EndBefore(largest, added, i);
  }

  lemma ContinuesGrows(f: FileMetaData, largest: InternalKey)
    requires Continues(f, largest)
    ensures Less(largest, f.Smallest()) && !Less(f.Largest(), largest) && !Less(f.Largest(), f.Smallest())
  {
    WithinFile(f, f.entries[0]);
  }

  /** What a compaction may start from: at level 0 all files meeting a closed range, below it a
      contiguous run of the sorted level. */
  ghost predicate GoodPick(level: nat, files: seq<FileMetaData>, inputs: seq<FileMetaData>) {
    if level == 0 then
      exists lo, hi :: ClosedRange(files, lo, hi) && inputs == Overlapping(files, lo, hi)
    else
      exists i, j :: 0 <= i < j <= |files| && inputs == files[i..j]
  }

  /** No file left out holds older data for a user key that the inputs hold. */
  ghost predicate NoOlderLeftOut(files: seq<FileMetaData>, inputs: seq<FileMetaData>) {
    forall f, g :: f in inputs && g in files && g !in inputs ==> Newer(g.entries, f.entries)
  }

  /** On a sorted level, `AddBoundaryInputs` extends a run to the least longer run whose successor
      starts with a different user key. */
  lemma {:induction false} BoundaryExtendsRun(files: seq<FileMetaData>, i: nat, j: nat, added: seq<FileMetaData>)
    requires SortedLevel(files) && i < j <= |files|
    requires BoundaryChain(files, files[j - 1].Largest(), added)
    ensures j + |added| <= |files| && added == files[j..j + |added|]
    ensures forall m :: j <= m < j + |added| ==> SharesBoundaryKey(files, m)
  {
    hide SortedLevel, BoundaryChain, FirstToContinue;
    if added != [] {
      var n := |added| - 1;
      ChainPrefix(files, files[j - 1].Largest(), added);
      BoundaryExtendsRun(files, i, j, added[..n]);
      assert n > 0 ==> added[..n][n - 1] == files[j..j + n][n - 1];
      NextInLevel(files, j + n - 1, added[n]);
      assert added == added[..n] + [added[n]];
      SliceAppend(files, j, j + n);
    }
  }

  /** The user key at which a file starts is the one at which the file before it ends. */
  ghost predicate SharesBoundaryKey(files: seq<FileMetaData>, m: nat)
    requires 0 < m < |files|
  {
    files[m].Smallest().user == files[m - 1].Largest().user
  }

  lemma ChainPrefix(files: seq<FileMetaData>, largest: InternalKey, added: seq<FileMetaData>)
    requires added != [] && BoundaryChain(files, largest, added)
    ensures BoundaryChain(files, largest, added[..|added| - 1])
    ensures var n := |added| - 1;
            && added[n] in files && Continues(added[n], EndBefore(largest, added, n))
            && FirstToContinue(files, EndBefore(largest, added, n), added[n])
  {
    forall k | 0 <= k < |added| - 1
      ensures EndBefore(largest, added[..|added| - 1], k) == EndBefore(largest, added, k)
    {
    }
  }

  /** The first file to continue file `last` is the one right after it. */
  lemma NextInLevel(files: seq<FileMetaData>, last: nat, f: FileMetaData)
    requires SortedLevel(files) && last < |files| && f in files
    requires Continues(f, files[last].Largest()) && FirstToContinue(files, files[last].Largest(), f)
    ensures last + 1 < |files| && f == files[last + 1]
  {
    var m :| 0 <= m < |files| && files[m] == f;
    StartsLater(files, last, m);
    if m > last + 1 {
      StartsBetween(files, last, m);
    }
  }

  lemma StartsLater(files: seq<FileMetaData>, last: nat, m: nat)
    requires SortedLevel(files) && last < |files| && m < |files|
    requires Less(files[last].Largest(), files[m].Smallest())
    ensures m > last
  {
    WithinFile(files[last], files[last].entries[0]);
    WithinFile(files[m], files[m].entries[|files[m].entries| - 1]);
  }

  /** The file between two that share a user key continues it, and starts earlier. */
  lemma StartsBetween(files: seq<FileMetaData>, last: nat, m: nat)
    requires SortedLevel(files) && last + 1 < m < |files|
    requires Continues(files[m], files[last].Largest())
    ensures Continues(files[last + 1], files[last].Largest())
    ensures Less(files[last + 1].Smallest(), files[m].Smallest())
  {
    WithinFile(files[last + 1], files[last + 1].entries[0]);
    assert Less(files[last].Largest(), files[last + 1].Smallest());
    assert Less(files[last + 1].Largest(), files[m].Smallest());
  }

  function TotalFileSize(files: seq<FileMetaData>): nat {
    if files == [] then 0 else TotalFileSize(files[..|files| - 1]) + files[|files| - 1].fileSize
  }

  /** On a sorted level the files meeting a range are consecutive. */
  lemma {:induction false} OverlappingIsRun(files: seq<FileMetaData>, lo: Option<UserKey>, hi: Option<UserKey>)
      returns (i: nat, j: nat)
    requires SortedLevel(files)
    ensures i <= j <= |files| && Overlapping(files, lo, hi) == files[i..j]
    ensures i < j || i == j == |files|
  {
    hide SortedLevel, Overlaps;
    if files == [] {
      i, j := 0, 0;
    } else {
      var n := |files| - 1;
      PrefixSorted(files, n);
      i, j := OverlappingIsRun(files[..n], lo, hi);
      assert files[..n][i..j] == files[i..j];
      OverlappingAppend(files[..n], files[n], lo, hi);
      PrefixAppend(files, n);
      WholePrefix(files);
      if Overlaps(files[n], lo, hi) {
        if i < j {
          RunHasNoGap(files, lo, hi, i, j, n);
        }
        SliceAppend(files, i, n);
        j := n + 1;
      } else if i == j {
        i, j := n + 1, n + 1;
      }
    }
  }

  lemma PrefixSorted(files: seq<FileMetaData>, n: nat)
    requires SortedLevel(files) && n <= |files|
    ensures SortedLevel(files[..n])
  {
  }

  /** A run of files meeting a range does not stop short of a later file that meets it. */
  lemma RunHasNoGap(files: seq<FileMetaData>, lo: Option<UserKey>, hi: Option<UserKey>, i: nat, j: nat, n: nat)
    requires SortedLevel(files) && i < j <= n < |files|
    requires Overlapping(files[..n], lo, hi) == files[i..j] && Overlaps(files[n], lo, hi)
    ensures j == n
  {
    hide SortedLevel, Less, Sorted, Overlaps;
    assert files[j - 1] == files[i..j][j - 1 - i];
    if j < n {
      SkippedIsAfter(files, lo, hi, j, n);
      assert files[j] == files[..n][j];
      assert files[j] in files[i..j];
      var k :| 0 <= k < j - i && files[i..j][k] == files[j];
      ListedOnce(files, i + k, j);
    }
  }

  lemma ListedOnce(files: seq<FileMetaData>, k: nat, m: nat)
    requires SortedLevel(files) && k < m < |files|
    ensures files[k] != files[m]
  {
    InOrder(files, k, m);
    WithinFile(files[m], files[m].entries[0]);
  }

  lemma InOrder(files: seq<FileMetaData>, k: nat, m: nat)
    requires SortedLevel(files) && k < m < |files|
    ensures Less(files[k].Largest(), files[m].Smallest())
  {
  }

  /** Between two files that meet a range every file meets it. */
  lemma SkippedIsAfter(files: seq<FileMetaData>, lo: Option<UserKey>, hi: Option<UserKey>, j: nat, n: nat)
    requires SortedLevel(files) && 0 < j < n < |files|
    requires Overlaps(files[j - 1], lo, hi) && Overlaps(files[n], lo, hi)
    ensures Overlaps(files[j], lo, hi)
  {
    WithinFile(files[j], files[j].entries[0]);
    WithinFile(files[j], files[j].entries[|files[j].entries| - 1]);
    InOrder(files, j - 1, j);
    InOrder(files, j, n);
  }

  /** At level 0 a closed selection has no boundary files to add. */
  lemma ClosedHasNoBoundary(files: seq<FileMetaData>, lo: Option<UserKey>, hi: Option<UserKey>,
                            largest: InternalKey, added: seq<FileMetaData>)
    requires ClosedRange(files, lo, hi) && BoundaryChain(files, largest, added)
    requires exists f :: f in Overlapping(files, lo, hi) && f.Largest() == largest
    requires forall f :: f in Overlapping(files, lo, hi) ==> !Less(largest, f.Largest())
    ensures added == []
  {
    if added != [] {
      var f :| f in Overlapping(files, lo, hi) && f.Largest() == largest;
      var g := added[0];
      assert Continues(g, largest) && g in files;
      WithinFile(g, g.entries[0]);
      assert Overlaps(g, lo, hi);
      assert false;
    }
  }

  lemma DisjointShareNothing(f: FileMetaData, g: FileMetaData)
    requires f.Largest().user < g.Smallest().user || g.Largest().user < f.Smallest().user
    ensures Newer(f.entries, g.entries)
  {
    forall x, y | x in f.entries && y in g.entries ensures x.key.user != y.key.user {
      WithinFile(f, x);
      WithinFile(g, y);
    }
  }

  lemma ClosedLeavesNoOlder(files: seq<FileMetaData>, lo: Option<UserKey>, hi: Option<UserKey>)
    requires ClosedRange(files, lo, hi)
    ensures NoOlderLeftOut(files, Overlapping(files, lo, hi))
  {
    hide Newer;
    var inputs := Overlapping(files, lo, hi);
    forall f, g | f in inputs && g in files && g !in inputs ensures Newer(g.entries, f.entries) {
      assert Contains(lo, hi, Some(f.Smallest().user), Some(f.Largest().user));
      DisjointShareNothing(g, f);
    }
  }

  lemma RunLeavesNoOlder(files: seq<FileMetaData>, i: nat, j: nat)
    requires SortedLevel(files) && i < j <= |files|
    requires forall g :: g in files ==> !Continues(g, files[j - 1].Largest())
    ensures NoOlderLeftOut(files, files[i..j])
  {
    hide Newer, SortedLevel, Sorted, Less;
    forall f, g | f in files[i..j] && g in files && g !in files[i..j] ensures Newer(g.entries, f.entries) {
      var k :| 0 <= k < j - i && files[i..j][k] == f;
      var m :| 0 <= m < |files| && files[m] == g;
      if m < i {
        EarlierIsNewer(files, m, i + k);
      } else {
        InSlice(files, i, j, m);
        EndsInOrder(files, i + k, j - 1);
        InOrder(files, j - 1, m);
        DisjointShareNothing(g, f);
      }
    }
  }

  lemma InSlice(files: seq<FileMetaData>, i: nat, j: nat, m: nat)
    requires i <= j <= |files| && m < |files|
    ensures i <= m < j ==> files[m] in files[i..j]
  {
    hide Less, Sorted;
    if i <= m < j {
      assert files[i..j][m - i] == files[m];
    }
  }

  lemma EndsInOrder(files: seq<FileMetaData>, k: nat, m: nat)
    requires SortedLevel(files) && k <= m < |files|
    ensures !Less(files[m].Largest(), files[k].Largest())
    ensures k < m ==> Less(files[k].Largest(), files[m].Largest())
  {
    if k < m {
      WithinFile(files[m], files[m].entries[0]);
      InOrder(files, k, m);
    }
  }

  /** `files` extended by boundary files; what that gives on a good pick. */
  method ExtendPick(level: nat, levelFiles: seq<FileMetaData>, inputs: seq<FileMetaData>)
      returns (r: seq<FileMetaData>)
    requires level > 0 ==> SortedLevel(levelFiles)
    requires inputs != [] && GoodPick(level, levelFiles, inputs)
    ensures r != [] && GoodPick(level, levelFiles, r) && NoOlderLeftOut(levelFiles, r)
    ensures forall f :: f in inputs ==> f in r
    ensures forall f :: f in r ==> f in levelFiles
    ensures Extends(levelFiles, inputs, r)
  {
    hide Less, Sorted, SortedLevel, GoodPick, NoOlderLeftOut, BoundaryChain, Continues, IsLargest;
    ghost var largest, added;
    r, largest, added := AddBoundaryInputs(levelFiles, inputs);
    LargestFromParts(inputs, largest);
    if level == 0 {
      ClosedPickStays(levelFiles, inputs, largest, added);
      assert r == inputs;
    } else {
      RunPickExtends(level, levelFiles, inputs, largest, added);
    }
    InPick(level, levelFiles, r);
  }

  lemma InPick(level: nat, levelFiles: seq<FileMetaData>, inputs: seq<FileMetaData>)
    requires GoodPick(level, levelFiles, inputs)
    ensures forall f :: f in inputs ==> f in levelFiles
  {
  }

  lemma ClosedPickStays(levelFiles: seq<FileMetaData>, inputs: seq<FileMetaData>, largest: InternalKey, added: seq<FileMetaData>)
    requires GoodPick(0, levelFiles, inputs) && BoundaryChain(levelFiles, largest, added)
    requires exists f :: f in inputs && f.Largest() == largest
    requires forall f :: f in inputs ==> !Less(largest, f.Largest())
    ensures added == [] && NoOlderLeftOut(levelFiles, inputs)
  {
    hide ClosedRange, BoundaryChain, NoOlderLeftOut, Less, Sorted;
    var lo, hi :| ClosedRange(levelFiles, lo, hi) && inputs == Overlapping(levelFiles, lo, hi);
    ClosedHasNoBoundary(levelFiles, lo, hi, largest, added);
    ClosedLeavesNoOlder(levelFiles, lo, hi);
  }

  lemma RunPickExtends(level: nat, levelFiles: seq<FileMetaData>, inputs: seq<FileMetaData>,
                       largest: InternalKey, added: seq<FileMetaData>)
    requires level > 0 && SortedLevel(levelFiles)
    requires GoodPick(level, levelFiles, inputs) && BoundaryChain(levelFiles, largest, added)
    requires exists f :: f in inputs && f.Largest() == largest
    requires forall f :: f in inputs ==> !Less(largest, f.Largest())
    requires forall g :: g in levelFiles ==> !Continues(g, EndBefore(largest, added, |added|))
    ensures GoodPick(level, levelFiles, inputs + added) && NoOlderLeftOut(levelFiles, inputs + added)
  {
    hide SortedLevel, BoundaryChain, NoOlderLeftOut, Sorted, Continues, Less;
    var i, j :| 0 <= i < j <= |levelFiles| && inputs == levelFiles[i..j];
    LastEndsRun(levelFiles, i, j, largest);
    RunWithBoundary(levelFiles, i, j, added);
  }

  lemma LastEndsRun(files: seq<FileMetaData>, i: nat, j: nat, largest: InternalKey)
    requires SortedLevel(files) && i < j <= |files|
    requires exists f :: f in files[i..j] && f.Largest() == largest
    requires forall f :: f in files[i..j] ==> !Less(largest, f.Largest())
    ensures largest == files[j - 1].Largest()
  {
    hide SortedLevel, Sorted;
    var f :| f in files[i..j] && f.Largest() == largest;
    var k :| 0 <= k < j - i && files[i..j][k] == f;
    EndsInOrder(files, i + k, j - 1);
    assert files[j - 1] == files[i..j][j - 1 - i];
  }

  lemma RunWithBoundary(files: seq<FileMetaData>, i: nat, j: nat, added: seq<FileMetaData>)
    requires SortedLevel(files) && i < j <= |files|
    requires BoundaryChain(files, files[j - 1].Largest(), added)
    requires forall g :: g in files ==> !Continues(g, EndBefore(files[j - 1].Largest(), added, |added|))
    ensures j + |added| <= |files| && files[i..j] + added == files[i..j + |added|]
    ensures NoOlderLeftOut(files, files[i..j] + added)
  {
    hide SortedLevel, BoundaryChain, NoOlderLeftOut, Sorted, Continues, Less;
    BoundaryExtendsRun(files, i, j, added);
    var j1 := j + |added|;
    SliceConcat(files, i, j, j1);
    assert added != [] ==> files[j..j1][|added| - 1] == files[j1 - 1];
    RunLeavesNoOlder(files, i, j1);
  }

  lemma SliceConcat(files: seq<FileMetaData>, i: nat, j: nat, k: nat)
    requires i <= j <= k <= |files|
    ensures files[i..j] + files[j..k] == files[i..k]
  {
  }

  /** The user keys of `files` run from `lo` to `hi`. */
  ghost predicate SpansUsers(files: seq<FileMetaData>, lo: UserKey, hi: UserKey) {
    && (exists f :: f in files && f.Smallest().user == lo)
    && (exists f :: f in files && f.Largest().user == hi)
    && forall f :: f in files ==> lo <= f.Smallest().user && f.Largest().user <= hi
  }

  /** What a finished selection guarantees: boundary-closed at `level`, and at the next level exactly
      the files that meet the range of the first list. */
  ghost predicate Selected(level: nat, files: seq<seq<FileMetaData>>, inputs0: seq<FileMetaData>, inputs1: seq<FileMetaData>)
    requires level + 1 < |files|
  {
    && inputs0 != []
    && (forall f :: f in inputs0 ==> f in files[level])
    && NoOlderLeftOut(files[level], inputs0)
    && exists lo, hi :: SpansUsers(inputs0, lo, hi) && inputs1 == Overlapping(files[level + 1], Some(lo), Some(hi))
  }

  ghost predicate IsLargest(files: seq<FileMetaData>, largest: InternalKey) {
    && (exists f :: f in files && f.Largest() == largest)
    && forall f :: f in files ==> !Less(largest, f.Largest())
  }

  ghost predicate IsSmallest(files: seq<FileMetaData>, smallest: InternalKey) {
    && (exists f :: f in files && f.Smallest() == smallest)
    && forall f :: f in files ==> !Less(f.Smallest(), smallest)
  }

  lemma LargestFromParts(files: seq<FileMetaData>, largest: InternalKey)
    requires exists f :: f in files && f.Largest() == largest
    requires forall f :: f in files ==> !Less(largest, f.Largest())
    ensures IsLargest(files, largest)
  {
    hide Less;
  }

  /** `r` is `inputs` and the chain of boundary files behind it, to its end. */
  ghost predicate Extends(levelFiles: seq<FileMetaData>, inputs: seq<FileMetaData>, r: seq<FileMetaData>) {
    exists largest, added ::
      && IsLargest(inputs, largest) && r == inputs + added && BoundaryChain(levelFiles, largest, added)
      && NoneContinues(levelFiles, EndBefore(largest, added, |added|))
  }

  /** `r` are the files that meet the range; at level 0, the least closed range around it. */
  ghost predicate Meets(level: nat, files: seq<FileMetaData>, begin: Option<UserKey>, end: Option<UserKey>, r: seq<FileMetaData>) {
    if level > 0 then r == Overlapping(files, begin, end)
    else exists lo, hi :: LeastClosed(files, begin, end, lo, hi) && r == Overlapping(files, lo, hi)
  }

  ghost predicate MeetsSpan(files: seq<FileMetaData>, inputs0: seq<FileMetaData>, r: seq<FileMetaData>) {
    exists lo, hi :: SpansUsers(inputs0, lo, hi) && r == Overlapping(files, Some(lo), Some(hi))
  }

  /** The steps of a selection: the first lists, their range, and the lists tried instead. */
  datatype Plan = Plan(first0: seq<FileMetaData>, first1: seq<FileMetaData>, start: InternalKey, limit: InternalKey,
                       meeting: seq<FileMetaData>, expanded0: seq<FileMetaData>, expanded1: seq<FileMetaData>)

  /** The first level may grow: it does grow, and within the size limit. */
  ghost predicate MayGrow(p: Plan, sizeLimit: nat) {
    |p.expanded0| > |p.first0| && TotalFileSize(p.first1) + TotalFileSize(p.expanded0) < sizeLimit
  }

  /** The selection of the first level is extended at its boundary; the files of the next level are those
      that meet it; and the first level takes in all that meets both, extended again, if that is more, is
      within the limit, and costs no further file of the next level. */
  ghost predicate Follows(level: nat, files: seq<seq<FileMetaData>>, pick: seq<FileMetaData>, sizeLimit: nat, p: Plan,
                          inputs0: seq<FileMetaData>, inputs1: seq<FileMetaData>)
    requires level + 1 < |files|
  {
    && Extends(files[level], pick, p.first0) && MeetsSpan(files[level + 1], p.first0, p.first1)
    && (p.first1 != [] ==>
          && IsSmallest(p.first0 + p.first1, p.start) && IsLargest(p.first0 + p.first1, p.limit)
          && Meets(level, files[level], Some(p.start.user), Some(p.limit.user), p.meeting)
          && Extends(files[level], p.meeting, p.expanded0)
          && (MayGrow(p, sizeLimit) ==> MeetsSpan(files[level + 1], p.expanded0, p.expanded1)))
    && if p.first1 != [] && MayGrow(p, sizeLimit) && |p.expanded1| == |p.first1|
       then inputs0 == p.expanded0 && inputs1 == p.expanded1
       else inputs0 == p.first0 && inputs1 == p.first1
  }

  /** Complete the inputs of a compaction: boundary files, then the overlapping files of the next
      level, then as many more files of the first level as cost no further file of the next. The next
      compaction of the level will start after the pointer. */
  method SetupOtherInputs(level: nat, files: seq<seq<FileMetaData>>, pick: seq<FileMetaData>, sizeLimit: nat)
      returns (inputs0: seq<FileMetaData>, inputs1: seq<FileMetaData>, pointer: InternalKey, ghost p: Plan)
    requires ValidVersion(files) && level + 1 < NUM_LEVELS
    requires pick != [] && GoodPick(level, files[level], pick)
    ensures Selected(level, files, inputs0, inputs1)
    ensures forall f :: f in pick ==> f in inputs0
    ensures Follows(level, files, pick, sizeLimit, p, inputs0, inputs1)
    ensures IsLargest(inputs0, pointer) && inputs1 == p.first1
  {
    hide Less, Sorted, SortedLevel, LeastClosed, GoodPick, NoOlderLeftOut, Selected, SpansUsers, Overlaps, Overlapping, TotalFileSize;
    hide IsLargest, IsSmallest, Extends, Meets, MeetsSpan, Follows, NumberedByAge, ShallowerIsNewer;
    VersionLevelsSorted(files);
    inputs0 := ExtendPick(level, files[level], pick);
    ghost var lo, hi;
    inputs1, pointer, lo, hi := NextLevelInputs(level, files, inputs0);
    SelectedFromParts(level, files, inputs0, inputs1, lo, hi);
    inputs0, inputs1, pointer, p := TryExpand(level, files, pick, inputs0, inputs1, pointer, sizeLimit);
    GrowthIsFree(level, files, pick, sizeLimit, p, inputs0, inputs1);
  }

  method TryExpand(level: nat, files: seq<seq<FileMetaData>>, ghost pick: seq<FileMetaData>, first0: seq<FileMetaData>,
                   first1: seq<FileMetaData>, firstPointer: InternalKey, sizeLimit: nat)
      returns (inputs0: seq<FileMetaData>, inputs1: seq<FileMetaData>, pointer: InternalKey, ghost p: Plan)
    requires ValidVersion(files) && level + 1 < NUM_LEVELS && first0 != [] && forall f :: f in first0 ==> f in files[level]
    requires Selected(level, files, first0, first1) && IsLargest(first0, firstPointer)
    requires Extends(files[level], pick, first0) && MeetsSpan(files[level + 1], first0, first1)
    ensures Selected(level, files, inputs0, inputs1) && IsLargest(inputs0, pointer)
    ensures forall f :: f in first0 ==> f in inputs0
    ensures p.first0 == first0 && Follows(level, files, pick, sizeLimit, p, inputs0, inputs1)
  {
    hide Less, Sorted, SortedLevel, LeastClosed, GoodPick, NoOlderLeftOut, Selected, SpansUsers, Overlaps, Overlapping, TotalFileSize;
    hide IsLargest, IsSmallest, Extends, Meets, MeetsSpan, NumberedByAge, ShallowerIsNewer;
    inputs0, inputs1, pointer := first0, first1, firstPointer;
    p := Plan(first0, first1, pointer, pointer, [], [], []);
    if first1 != [] {
      VersionLevelsSorted(files);
      var expanded, expanded0;
      expanded, expanded0, p := Expand(level, files, first0, first1);
      if |expanded0| > |first0| && TotalFileSize(first1) + TotalFileSize(expanded0) < sizeLimit {
        var expanded1, newLimit, lo1, hi1 := NextLevelInputs(level, files, expanded0);
        p := p.(expanded1 := expanded1);
        if |expanded1| == |first1| {
          SelectedFromParts(level, files, expanded0, expanded1, lo1, hi1);
          inputs0, inputs1, pointer := expanded0, expanded1, newLimit;
        }
      }
    }
  }

  /** The files of the first level that meet the whole range, extended. */
  method Expand(level: nat, files: seq<seq<FileMetaData>>, first0: seq<FileMetaData>, first1: seq<FileMetaData>)
      returns (meeting: seq<FileMetaData>, expanded0: seq<FileMetaData>, ghost p: Plan)
    requires level + 1 < |files| && (level > 0 ==> SortedLevel(files[level]))
    requires first0 != [] && forall f :: f in first0 ==> f in files[level]
    ensures expanded0 != [] && (forall f :: f in first0 ==> f in expanded0)
    ensures (forall f :: f in expanded0 ==> f in files[level]) && NoOlderLeftOut(files[level], expanded0)
    ensures p == Plan(first0, first1, p.start, p.limit, meeting, expanded0, [])
    ensures IsSmallest(first0 + first1, p.start) && IsLargest(first0 + first1, p.limit)
    ensures Meets(level, files[level], Some(p.start.user), Some(p.limit.user), meeting)
    ensures Extends(files[level], meeting, expanded0)
  {
    hide Less, Sorted, SortedLevel, LeastClosed, GoodPick, NoOlderLeftOut, Overlaps, Overlapping;
    hide IsLargest, IsSmallest, Extends, Meets;
    var allStart, allLimit := GetRange(first0 + first1);
    RangeFromParts(first0 + first1, allStart, allLimit);
    ghost var l, h;
    meeting, l, h := GetOverlappingInputs(level, files[level], Some(allStart), Some(allLimit));
    OverlapIsGoodPick(level, files[level], Some(allStart.user), Some(allLimit.user), l, h);
    MeetsFromParts(level, files[level], Some(allStart.user), Some(allLimit.user), l, h);
    RangeCovers(files[level], first0, first1, allStart, allLimit, meeting);
    expanded0 := ExtendPick(level, files[level], meeting);
    p := Plan(first0, first1, allStart, allLimit, meeting, expanded0, []);
  }

  lemma RangeFromParts(files: seq<FileMetaData>, smallest: InternalKey, largest: InternalKey)
    requires exists f :: f in files && f.Smallest() == smallest
    requires exists f :: f in files && f.Largest() == largest
    requires forall f :: f in files ==> !Less(f.Smallest(), smallest) && !Less(largest, f.Largest())
    ensures IsSmallest(files, smallest) && IsLargest(files, largest)
  {
    hide Less;
  }

  lemma MeetsFromParts(level: nat, files: seq<FileMetaData>, begin: Option<UserKey>, end: Option<UserKey>,
                       lo: Option<UserKey>, hi: Option<UserKey>)
    requires level > 0 ==> lo == begin && hi == end
    requires level == 0 ==> LeastClosed(files, begin, end, lo, hi)
    ensures Meets(level, files, begin, end, Overlapping(files, lo, hi))
  {
    hide LeastClosed, Overlapping;
  }

  /** Growing the first level leaves the next level's files as they were. */
  lemma GrowthIsFree(level: nat, files: seq<seq<FileMetaData>>, pick: seq<FileMetaData>, sizeLimit: nat, p: Plan,
                     inputs0: seq<FileMetaData>, inputs1: seq<FileMetaData>)
    requires ValidVersion(files) && level + 1 < |files| && Follows(level, files, pick, sizeLimit, p, inputs0, inputs1)
    requires forall f :: f in p.first0 ==> f in inputs0
    ensures inputs1 == p.first1
  {
    hide Less, Sorted, Extends, Meets, MayGrow, IsSmallest, IsLargest, Overlapping, Overlaps;
    var lo, hi :| SpansUsers(p.first0, lo, hi) && p.first1 == Overlapping(files[level + 1], Some(lo), Some(hi));
    if inputs0 == p.expanded0 && inputs1 == p.expanded1 && p.first1 != [] && MayGrow(p, sizeLimit) && |p.expanded1| == |p.first1| {
      var lo1, hi1 :| SpansUsers(p.expanded0, lo1, hi1) && p.expanded1 == Overlapping(files[level + 1], Some(lo1), Some(hi1));
      MoreMeet(files[level + 1], lo, hi, lo1, hi1);
    }
  }

  /** A wider range meets more files, or the same ones. */
  lemma {:induction false} MoreMeet(files: seq<FileMetaData>, lo: UserKey, hi: UserKey, lo1: UserKey, hi1: UserKey)
    requires lo1 <= lo && hi <= hi1
    ensures |Overlapping(files, Some(lo), Some(hi))| <= |Overlapping(files, Some(lo1), Some(hi1))|
    ensures |Overlapping(files, Some(lo), Some(hi))| == |Overlapping(files, Some(lo1), Some(hi1))| ==>
              Overlapping(files, Some(lo), Some(hi)) == Overlapping(files, Some(lo1), Some(hi1))
  {
    if files != [] {
      MoreMeet(files[..|files| - 1], lo, hi, lo1, hi1);
    }
  }

  lemma SelectedFromParts(level: nat, files: seq<seq<FileMetaData>>, inputs0: seq<FileMetaData>,
                          inputs1: seq<FileMetaData>, lo: UserKey, hi: UserKey)
    requires level + 1 < |files| && inputs0 != []
    requires (forall f :: f in inputs0 ==> f in files[level]) && NoOlderLeftOut(files[level], inputs0)
    requires SpansUsers(inputs0, lo, hi) && inputs1 == Overlapping(files[level + 1], Some(lo), Some(hi))
    ensures Selected(level, files, inputs0, inputs1)
  {
  }

  lemma RangeCovers(levelFiles: seq<FileMetaData>, inputs0: seq<FileMetaData>, inputs1: seq<FileMetaData>,
                    start: InternalKey, limit: InternalKey, expanded: seq<FileMetaData>)
    requires inputs0 != []
    requires forall f :: f in inputs0 ==> f in levelFiles
    requires forall f :: f in inputs0 + inputs1 ==> !Less(f.Smallest(), start) && !Less(limit, f.Largest())
    requires forall f :: f in levelFiles && Overlaps(f, Some(start.user), Some(limit.user)) ==> f in expanded
    ensures forall f :: f in inputs0 ==> f in expanded
    ensures expanded != []
  {
    forall f | f in inputs0 ensures f in expanded {
      assert f in inputs0 + inputs1;
      WithinFile(f, f.entries[0]);
    }
    assert inputs0[0] in expanded;
  }

  lemma VersionLevelsSorted(files: seq<seq<FileMetaData>>)
    requires ValidVersion(files)
    ensures forall l :: 1 <= l < NUM_LEVELS ==> SortedLevel(files[l])
  {
  }

  method NextLevelInputs(level: nat, files: seq<seq<FileMetaData>>, inputs0: seq<FileMetaData>)
      returns (inputs1: seq<FileMetaData>, largest: InternalKey, ghost lo: UserKey, ghost hi: UserKey)
    requires inputs0 != [] && level + 1 < |files|
    ensures SpansUsers(inputs0, lo, hi) && inputs1 == Overlapping(files[level + 1], Some(lo), Some(hi))
    ensures MeetsSpan(files[level + 1], inputs0, inputs1) && IsLargest(inputs0, largest)
  {
    var smallest;
    smallest, largest := GetRange(inputs0);
    ghost var l, h;
    inputs1, l, h := GetOverlappingInputs(level + 1, files[level + 1], Some(smallest), Some(largest));
    lo, hi := smallest.user, largest.user;
  }

  /** The files two levels down that meet the range of a compaction, and whether a lone input may just be
      moved: not if that leaves it over too much data there. */
  method IsTrivialMove(level: nat, files: seq<seq<FileMetaData>>, inputs0: seq<FileMetaData>, inputs1: seq<FileMetaData>,
                       maxGrandParentOverlap: nat) returns (move: bool, grandparents: seq<FileMetaData>)
    requires inputs0 != []
    ensures if level + 2 < |files| then MeetsSpan(files[level + 2], inputs0 + inputs1, grandparents) else grandparents == []
    ensures move <==> |inputs0| == 1 && |inputs1| == 0 && TotalFileSize(grandparents) <= maxGrandParentOverlap
  {
    hide Less, Sorted, SpansUsers, TotalFileSize, Overlapping;
    var found: seq<FileMetaData> := [];
    if level + 2 < |files| {
      var meeting, _, _, _ := NextLevelInputs(level + 1, files, inputs0 + inputs1);
      found := meeting;
    }
    grandparents := found;
    move := |inputs0| == 1 && |inputs1| == 0 && TotalFileSize(found) <= maxGrandParentOverlap;
  }

  lemma OverlapIsGoodPick(level: nat, files: seq<FileMetaData>, lo0: Option<UserKey>, hi0: Option<UserKey>,
                          lo: Option<UserKey>, hi: Option<UserKey>)
    requires level > 0 ==> SortedLevel(files) && lo == lo0 && hi == hi0
    requires level == 0 ==> LeastClosed(files, lo0, hi0, lo, hi)
    ensures Overlapping(files, lo, hi) != [] ==> GoodPick(level, files, Overlapping(files, lo, hi))
    ensures forall f :: f in files && Overlaps(f, lo0, hi0) ==> f in Overlapping(files, lo, hi)
  {
    if level > 0 {
      var i, j := OverlappingIsRun(files, lo, hi);
    }
  }

  /** File `i` is the first that ends after the compaction pointer; with no such file, or no pointer,
      it is the first file. */
  ghost predicate FirstPast(files: seq<FileMetaData>, pointer: Option<InternalKey>, i: nat) {
    && i < |files|
    && if pointer.Some? && exists f :: f in files && Less(pointer.value, f.Largest()) then
         && Less(pointer.value, files[i].Largest())
         && forall j :: 0 <= j < i ==> !Less(pointer.value, files[j].Largest())
       else
         i == 0
  }

  /** A file that too many seeks went to, and its level. */
  datatype SeekFile = SeekFile(level: nat, file: FileMetaData)

  datatype Pick = Pick(level: nat, files: seq<FileMetaData>)

  /** The first file past the compaction pointer, or the first of all. */
  method PickBySize(files: seq<FileMetaData>, pointer: Option<InternalKey>) returns (i: nat)
    requires files != []
    ensures FirstPast(files, pointer, i)
  {
    i := 0;
    if pointer.Some? {
      while i < |files| && !Less(pointer.value, files[i].Largest())
        invariant 0 <= i <= |files|
        invariant forall j :: 0 <= j < i ==> !Less(pointer.value, files[j].Largest())
      {
        i := i + 1;
      }
    }
    if i == |files| {
      i := 0;
    }
  }

  /** What the next compaction starts from: a level with too much data comes first, then a file that too
      many seeks went to. At level 0 everything that overlaps is taken along. */
  method PickCompaction(version: seq<seq<FileMetaData>>, pointers: seq<Option<InternalKey>>,
                        fullLevel: Option<nat>, seek: Option<SeekFile>) returns (r: Option<Pick>)
    requires |version| == |pointers| == NUM_LEVELS && forall l :: 1 <= l < NUM_LEVELS ==> SortedLevel(version[l])
    requires fullLevel.Some? ==> fullLevel.value + 1 < NUM_LEVELS && version[fullLevel.value] != []
    requires seek.Some? ==> seek.value.level + 1 < NUM_LEVELS && seek.value.file in version[seek.value.level]
    ensures r.None? <==> fullLevel.None? && seek.None?
    ensures r.Some? ==>
              && r.value.level == (if fullLevel.Some? then fullLevel.value else seek.value.level)
              && r.value.files != [] && GoodPick(r.value.level, version[r.value.level], r.value.files)
    ensures fullLevel.Some? ==>
              exists i: nat :: FirstPast(version[fullLevel.value], pointers[fullLevel.value], i)
                               && StartsFrom(fullLevel.value, version[fullLevel.value], version[fullLevel.value][i], r.value.files)
    ensures fullLevel.None? && seek.Some? ==>
              StartsFrom(seek.value.level, version[seek.value.level], seek.value.file, r.value.files)
  {
    var level, i;
    if fullLevel.Some? {
      level := fullLevel.value;
      i := PickBySize(version[level], pointers[level]);
    } else if seek.Some? {
      level := seek.value.level;
      i :| 0 <= i < |version[level]| && version[level][i] == seek.value.file;
    } else {
      return None;
    }
    var files := TakeAlong(level, version[level], i);
    r := Some(Pick(level, files));
  }

  /** A compaction that starts from the file `f`: below level 0 with it alone, at level 0 with all files
      that meet the least range around it that is closed under overlap. */
  ghost predicate StartsFrom(level: nat, files: seq<FileMetaData>, f: FileMetaData, pick: seq<FileMetaData>) {
    && f in pick
    && if level > 0 then pick == [f]
       else exists lo, hi :: LeastClosed(files, Some(f.Smallest().user), Some(f.Largest().user), lo, hi)
                             && pick == Overlapping(files, lo, hi)
  }

  method TakeAlong(level: nat, files: seq<FileMetaData>, i: nat) returns (pick: seq<FileMetaData>)
    requires i < |files| && (level > 0 ==> SortedLevel(files))
    ensures StartsFrom(level, files, files[i], pick) && GoodPick(level, files, pick)
  {
    pick := [files[i]];
    if level == 0 {
      var smallest, largest := GetRange(pick);
      ghost var lo, hi;
      pick, lo, hi := GetOverlappingInputs(0, files, Some(smallest), Some(largest));
      WithinFile(files[i], files[i].entries[0]);
      OverlapIsGoodPick(0, files, Some(smallest.user), Some(largest.user), lo, hi);
      assert files[i] in pick;
    } else {
      assert pick == files[i..i + 1];
    }
  }

  /** The start of a manual compaction of a key range; below level 0 it is cut to about one file. */
  method CompactRange(level: nat, files: seq<FileMetaData>, begin: Option<InternalKey>, end: Option<InternalKey>,
                      limit: nat)
      returns (pick: seq<FileMetaData>, ghost whole: seq<FileMetaData>)
    requires level > 0 ==> SortedLevel(files)
    ensures pick != [] ==> GoodPick(level, files, pick)
    ensures pick == [] ==> forall f :: f in files ==> !Overlaps(f, UserOf(begin), UserOf(end))
    ensures Meets(level, files, UserOf(begin), UserOf(end), whole) && (level == 0 ==> pick == whole)
    ensures pick <= whole && (whole != [] ==> pick != [])
    ensures |pick| < |whole| ==> TotalFileSize(pick) >= limit
    ensures level > 0 && |pick| > 1 ==> TotalFileSize(pick[..|pick| - 1]) < limit
  {
    hide SortedLevel, LeastClosed, ClosedRange, Less, Sorted, Overlaps, Overlapping, GoodPick, TotalFileSize, Meets;
    ghost var lo, hi;
    pick, lo, hi := GetOverlappingInputs(level, files, begin, end);
    OverlapIsGoodPick(level, files, UserOf(begin), UserOf(end), lo, hi);
    MeetsFromParts(level, files, UserOf(begin), UserOf(end), lo, hi);
    whole := pick;
    if level > 0 && pick != [] {
      var total, i := 0, 0;
      TotalOfParts(pick[..0], []);
      while i < |pick| && total + pick[i].fileSize < limit
        invariant 0 <= i <= |pick| && total == TotalFileSize(pick[..i])
        invariant i > 0 ==> TotalFileSize(pick[..i]) < limit
      {
        PrefixAppend(pick, i);
        TotalOfParts(pick[..i], [pick[i]]);
        total := total + pick[i].fileSize;
        i := i + 1;
      }
      if i < |pick| {
        PrefixAppend(pick, i);
        TotalOfParts(pick[..i], [pick[i]]);
        pick := pick[..i + 1];
        assert pick[..i] == whole[..i];
        PickIsCut(level, files, whole, i + 1);
      } else {
        WholePrefix(pick);
        TotalOfParts(pick[..i - 1], [pick[i - 1]]);
        PrefixAppend(pick, i - 1);
      }
    }
  }

  /** The size of a list of files is the sum of theirs. */
  lemma {:induction false} TotalOfParts(fs: seq<FileMetaData>, gs: seq<FileMetaData>)
    ensures TotalFileSize(fs + gs) == TotalFileSize(fs) + TotalFileSize(gs)
    ensures TotalFileSize([]) == 0
    ensures |gs| == 1 ==> TotalFileSize(gs) == gs[0].fileSize
  {
    if gs == [] {
      assert fs + gs == fs;
    } else {
      var n := |gs| - 1;
      TotalOfParts(fs, gs[..n]);
      assert (fs + gs)[..|fs + gs| - 1] == fs + gs[..n];
    }
  }

  lemma PickIsCut(level: nat, files: seq<FileMetaData>, pick: seq<FileMetaData>, n: nat)
    requires level > 0 && GoodPick(level, files, pick) && 0 < n <= |pick|
    ensures GoodPick(level, files, pick[..n])
  {
    var a, b :| 0 <= a < b <= |files| && pick == files[a..b];
    assert pick[..n] == files[a..a + n];
  }

  ghost predicate MeetsNone(files: seq<FileMetaData>, smallest: UserKey, largest: UserKey) {
    forall f :: f in files ==> !Overlaps(f, Some(smallest), Some(largest))
  }

  /** The level for a flushed table: the deepest down to level 2 such that no level from 0 to it meets the
      table's range, and none of the levels two below those passed holds too much of it. A table that
      meets level 0 stays there. */
  ghost predicate IsFlushLevel(files: seq<seq<FileMetaData>>, smallest: UserKey, largest: UserKey,
                               maxGrandParentOverlap: nat, level: nat)
    requires |files| == NUM_LEVELS
  {
    && level <= 2
    && (level > 0 ==> forall l :: 0 <= l <= level ==> MeetsNone(files[l], smallest, largest))
    && (forall m :: 2 <= m < level + 2 ==>
          TotalFileSize(Overlapping(files[m], Some(smallest), Some(largest))) <= maxGrandParentOverlap)
    && (level < 2 ==>
          || (level == 0 && !MeetsNone(files[0], smallest, largest))
          || !MeetsNone(files[level + 1], smallest, largest)
          || TotalFileSize(Overlapping(files[level + 2], Some(smallest), Some(largest))) > maxGrandParentOverlap)
  }

  lemma OneFlushLevel(files: seq<seq<FileMetaData>>, smallest: UserKey, largest: UserKey, maxGrandParentOverlap: nat,
                      level: nat, other: nat)
    requires |files| == NUM_LEVELS
    requires IsFlushLevel(files, smallest, largest, maxGrandParentOverlap, level)
    requires IsFlushLevel(files, smallest, largest, maxGrandParentOverlap, other)
    ensures level == other
  {
    hide MeetsNone, Overlapping, TotalFileSize;
  }

  /** The level for a flushed table. */
  method PickLevelForMemTableOutput(files: seq<seq<FileMetaData>>, smallest: UserKey, largest: UserKey,
                                    maxGrandParentOverlap: nat)
      returns (level: nat)
    requires ValidVersion(files)
    requires forall l, f :: 0 <= l < NUM_LEVELS && f in files[l] ==> f.Largest().sequence <= MAX_SEQUENCE
    ensures IsFlushLevel(files, smallest, largest, maxGrandParentOverlap, level)
    ensures level > 0 ==> forall l, f :: 0 <= l <= level && f in files[l] ==> !Overlaps(f, Some(smallest), Some(largest))
  {
    hide SortedLevel, Overlaps, Less, Sorted, NumberedByAge, ShallowerIsNewer, Overlapping, TotalFileSize, LeastClosed;
    level := 0;
    VersionLevelsSorted(files);
    var overlap := SomeFileOverlapsRange(false, files[0], Some(smallest), Some(largest));
    if !overlap {
      while level < MAX_MEM_COMPACT_LEVEL
        invariant level <= MAX_MEM_COMPACT_LEVEL
        invariant forall m :: 2 <= m < level + 2 ==>
                    TotalFileSize(Overlapping(files[m], Some(smallest), Some(largest))) <= maxGrandParentOverlap
        invariant forall l :: 0 <= l <= level ==> MeetsNone(files[l], smallest, largest)
      {
        overlap := SomeFileOverlapsRange(true, files[level + 1], Some(smallest), Some(largest));
        if overlap {
          break;
        }
        ghost var lo, hi;
        var overlaps;
        overlaps, lo, hi := GetOverlappingInputs(level + 2, files[level + 2],
          Some(InternalKey(smallest, MAX_SEQUENCE, Value)), Some(InternalKey(largest, 0, Deletion)));
        if TotalFileSize(overlaps) > maxGrandParentOverlap {
          break;
        }
        level := level + 1;
      }
    }
  }

  const MAX_MEM_COMPACT_LEVEL: nat := 2
}
